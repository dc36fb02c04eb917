/**
  One callout from start to exit: the handlers, the lock they take in the name
  of the calling process, and the flag that says whether the exit path has to
  give it back.
*/
module ApCheck {
  import opened ApConflicts
  import opened ApProtocol

  datatype Event = PreEvent | PostEvent | LiveEvent

  class Callout {
    /** The process the callout is made for, and its request. */
    const pid: Pid
    const req: Request
    /** The vfio_ap module is there, and its driver can change a device while it is in use. */
    const loaded: bool
    const dynamicConfig: bool
    /** Whether the driver accepts the new configuration of a device in use. */
    const accepted: bool
    /** Directory listings of the stored and of the active devices. */
    const cfgDir: seq<Uuid>
    const sysDir: seq<Uuid>
    const cfgMask: Device
    const sysMask: Device
    var lock: Owner
    var configs: map<Uuid, Device>
    var active: map<Uuid, Device>
    /** The exit path has to release the lock. */
    var cleanupLock: bool

    constructor (pid: Pid, req: Request, loaded: bool, dynamicConfig: bool, accepted: bool, s: Sys, cfgDir: seq<Uuid>, sysDir: seq<Uuid>)
      requires Readable(s, req, cfgDir, sysDir)
      ensures Valid() && Now() == s.(phase := map[]) && !cleanupLock
      ensures this.pid == pid && this.req == req && this.loaded == loaded && this.accepted == accepted
      ensures this.dynamicConfig == dynamicConfig
    {
      this.pid, this.req, this.loaded, this.dynamicConfig, this.accepted := pid, req, loaded, dynamicConfig, accepted;
      this.cfgDir, this.sysDir, cfgMask, sysMask := cfgDir, sysDir, s.cfgMask, s.sysMask;
      lock, configs, active, cleanupLock := s.lock, s.configs, s.active, false;
    }

    ghost function Now(): Sys
      reads this
    {
      Sys(lock, map[], configs, active, cfgMask, sysMask)
    }

    ghost predicate Valid()
      reads this
    {
      Readable(Now(), req, cfgDir, sysDir)
    }

    // ----------------------------------------------------------------
    // The lock
    // ----------------------------------------------------------------

    /** Takes the lock in the name of the calling process; it fails when anybody, even that process, holds it. */
    method GetLock() returns (rc: int)
      modifies this`lock
      ensures rc == if old(lock) == Nobody then 0 else -1
      ensures lock == if rc == 0 then Held(pid) else old(lock)
    {
      if lock == Nobody {
        lock := Held(pid);
        return 0;
      }
      return -1;
    }

    method ReleaseLock() returns (rc: int)
      modifies this`lock
      ensures lock == if old(lock) == Held(pid) then Nobody else old(lock)
      ensures rc == if old(lock) == Held(pid) then 0 else -1
    {
      if lock != Held(pid) {
        return -1;
      }
      lock := Nobody;
      return 0;
    }

    // ----------------------------------------------------------------
    // Comparisons
    // ----------------------------------------------------------------

    /** Compares the device with all others of a directory; one conflict is enough to fail, but all are looked at. */
    method CheckOthers(dir: seq<Uuid>, devs: map<Uuid, Device>, autosOnly: bool) returns (rc: int)
      requires Sorted(req.dev) && (forall u :: u in dir <==> u in devs) && forall u :: u in devs ==> Sorted(devs[u])
      ensures rc == 0 || rc == -1
      ensures rc == 0 <==>
        forall u :: u in devs && u != req.uuid && !(autosOnly && devs[u].manual) ==> Apart(req.dev, devs[u])
    {
      rc := 0;
      var i := 0;
      while i < |dir|
        invariant i <= |dir| && (rc == 0 || rc == -1)
        invariant rc == 0 <==>
          forall k :: 0 <= k < i ==> dir[k] == req.uuid || (autosOnly && devs[dir[k]].manual) || Apart(req.dev, devs[dir[k]])
      {
        assert dir[i] in dir;
        var other := devs[dir[i]];
        if dir[i] != req.uuid && !(autosOnly && other.manual) {
          var r, reports := FindApqnConflicts(req.dev.adapters, req.dev.domains, other.adapters, other.domains);
          if rc == 0 && r != 0 {
            rc := r;
          }
        }
        i := i + 1;
      }
      if rc == 0 {
        forall u | u in devs && u != req.uuid && !(autosOnly && devs[u].manual) ensures Apart(req.dev, devs[u]) {
          var k :| 0 <= k < |dir| && dir[k] == u;
        }
      }
    }

    method CheckMask(mask: Device) returns (rc: int)
      requires Sorted(req.dev) && Sorted(mask)
      ensures rc == if Apart(req.dev, mask) then 0 else -1
    {
      var reports;
      rc, reports := FindApqnConflicts(req.dev.adapters, req.dev.domains, mask.adapters, mask.domains);
    }

    /** The check of define and modify; when it succeeds, the lock stays until the post callout. */
    method CheckChanges() returns (rc: int)
      requires Valid() && !cleanupLock && (req.action == Define || req.action == Modify)
      modifies this`lock, this`cleanupLock
      ensures rc == 0 <==> old(lock) == Nobody && Passes(Now(), req)
      ensures Took(old(lock), rc)
    {
      rc := GetLock();
      if rc != 0 {
        return -1;
      }
      cleanupLock := true;
      if !req.input {
        return -1;
      }
      if !req.dev.manual {
        rc := CheckOthers(cfgDir, configs, true);
        var rc2 := CheckMask(cfgMask);
        rc := if rc != 0 then rc else rc2;
      }
      StoredVerdict();
      if rc == 0 {
        cleanupLock := false;
      }
    }

    /** How a handler leaves the lock and the flag for the exit path. */
    ghost predicate Took(was: Owner, rc: int)
      reads this
    {
      if was != Nobody then lock == was && !cleanupLock
      else lock == Held(pid) && (cleanupLock <==> rc != 0)
    }

    lemma StoredVerdict()
      requires Valid() && (req.action == Define || req.action == Modify)
      ensures Passes(Now(), req) <==>
        && InputOk(req)
        && (!req.dev.manual ==>
             && (forall u :: u in configs && u != req.uuid && !configs[u].manual ==> Apart(req.dev, configs[u]))
             && Apart(req.dev, cfgMask))
    {
      hide Apart;
      var others := Others(Now(), req);
      if !req.dev.manual {
        assert forall u :: u in others <==> u in configs && u != req.uuid && !configs[u].manual;
      }
    }

    lemma ActiveVerdict()
      requires Valid() && AgainstActive(req)
      ensures Passes(Now(), req) <==>
        && InputOk(req) && Apart(req.dev, sysMask)
        && forall u :: u in active && u != req.uuid ==> Apart(req.dev, active[u])
    {
      hide Apart;
      var others := Others(Now(), req);
      assert forall u :: u in others <==> u in active && u != req.uuid;
    }

    /** The check of start and live modify. */
    method CheckActive() returns (rc: int)
      requires Valid() && AgainstActive(req) && req.input
      ensures rc == 0 <==> Passes(Now(), req)
    {
      ActiveVerdict();
      if |req.dev.domains| == 0 && |req.dev.controls| != 0 {
        return -1;
      }
      rc := CheckOthers(sysDir, active, false);
      var rc2 := CheckMask(sysMask);
      rc := if rc != 0 then rc else rc2;
    }

    // ----------------------------------------------------------------
    // Handlers
    // ----------------------------------------------------------------

    method HandleDefine() returns (rc: int)
      requires Valid() && !cleanupLock && req.action == Define
      modifies this`lock, this`cleanupLock
      ensures rc == 0 <==> req.uuid !in configs && old(lock) == Nobody && Passes(Now(), req)
      ensures if req.uuid in configs then lock == old(lock) && !cleanupLock else Took(old(lock), rc)
    {
      if req.uuid in configs {
        return -1;
      }
      rc := CheckChanges();
    }

    method HandleModify() returns (rc: int)
      requires Valid() && !cleanupLock && req.action == Modify
      modifies this`lock, this`cleanupLock
      ensures rc == 0 <==> req.uuid in configs && old(lock) == Nobody && Passes(Now(), req)
      ensures if req.uuid !in configs then lock == old(lock) && !cleanupLock else Took(old(lock), rc)
    {
      if req.uuid !in configs {
        return -1;
      }
      rc := CheckChanges();
    }

    method HandleStart() returns (rc: int)
      requires Valid() && !cleanupLock && req.action == Start
      modifies this`lock, this`cleanupLock
      ensures rc == 0 <==> loaded && old(lock) == Nobody && Passes(Now(), req)
      ensures if !loaded then lock == old(lock) && !cleanupLock else Took(old(lock), rc)
    {
      if !loaded {
        return 1;
      }
      rc := GetLock();
      if rc != 0 {
        return -1;
      }
      cleanupLock := true;
      if !req.input {
        return -1;
      }
      rc := CheckActive();
      if rc == 0 {
        cleanupLock := false;
      }
    }

    method HandleStop() returns (rc: int)
      requires !cleanupLock
      modifies this`lock
      ensures rc == 0 <==> old(lock) == Nobody
      ensures Took(old(lock), rc)
    {
      rc := GetLock();
    }

    method HandleUndefine() returns (rc: int)
      requires !cleanupLock
      modifies this`lock, this`cleanupLock
      ensures rc == 0 <==> old(lock) == Nobody && req.input
      ensures Took(old(lock), rc)
    {
      rc := GetLock();
      if rc != 0 {
        return -1;
      }
      cleanupLock := true;
      if !req.input {
        return -1;
      }
      cleanupLock := false;
    }

    /** Checks and applies a change of a device in use; the lock never outlives the callout. */
    method HandleLiveModify() returns (rc: int)
      requires Valid() && !cleanupLock && req.action == LiveModify
      modifies this`lock, this`cleanupLock, this`active
      ensures rc == 0 <==> old(lock) == Nobody && dynamicConfig && accepted && old(Passes(Now(), req))
      ensures active == if rc == 0 then old(active)[req.uuid := req.dev] else old(active)
      ensures if old(lock) != Nobody then lock == old(lock) && !cleanupLock else lock == Held(pid) && cleanupLock
    {
      rc := GetLock();
      if rc != 0 {
        return -1;
      }
      cleanupLock := true;
      if !req.input {
        return -1;
      }
      if !dynamicConfig {
        return -1;
      }
      SamePasses(old(Now()), Now(), req);
      rc := CheckActive();
      if rc != 0 {
        return;
      }
      if !accepted {
        return -1;
      }
      active := active[req.uuid := req.dev];
    }

    // ----------------------------------------------------------------
    // The whole callout
    // ----------------------------------------------------------------

    /** What has to hold before a handler goes for the lock. */
    predicate Gate(event: Event)
      reads this`configs
    {
      match req.action
      case Define => req.uuid !in configs
      case Modify => req.uuid in configs
      case Start => loaded
      case Stop => true
      case Undefine => true
      case LiveModify => dynamicConfig && accepted
    }

    /**
      A callout.  A pre callout succeeds exactly when the lock was free and
      nothing conflicts; then, and only then, the lock is held afterwards.
      A live callout changes the active device exactly when it succeeds and
      always gives the lock back.  A post callout releases the lock of its own
      process.
    */
    method Execute(event: Event) returns (rc: int)
      requires Valid() && !cleanupLock && (event == LiveEvent <==> req.action == LiveModify)
      modifies this
      ensures configs == old(configs)
      ensures event == PreEvent ==>
        && (rc == 0 <==> old(Gate(event)) && old(lock) == Nobody && old(Passes(Now(), req)))
        && lock == (if rc == 0 then Held(pid) else old(lock)) && active == old(active)
      ensures event == LiveEvent ==>
        && (rc == 0 <==> old(Gate(event)) && old(lock) == Nobody && old(Passes(Now(), req)))
        && lock == old(lock) && active == (if rc == 0 then old(active)[req.uuid := req.dev] else old(active))
      ensures event != PostEvent && old(lock) == Nobody && old(event == PreEvent ==> Gate(event)) ==>
        Now() == CalloutResult(old(Now()), pid, req, old(Gate(event))).(phase := map[])
      ensures event == PostEvent ==>
        rc == 0 && lock == (if old(lock) == Held(pid) then Nobody else old(lock)) && active == old(active)
    {
      rc := 0;
      match event {
        case PreEvent =>
          match req.action {
            case Define => rc := HandleDefine();
            case Modify => rc := HandleModify();
            case Start => rc := HandleStart();
            case Stop => rc := HandleStop();
            case Undefine => rc := HandleUndefine();
          }
        case PostEvent => var r := ReleaseLock();
        case LiveEvent => rc := HandleLiveModify();
      }
      if event == PreEvent { SamePasses(old(Now()), Now(), req); }
      if cleanupLock {
        var r := ReleaseLock();
      }
    }
  }

  lemma SamePasses(s: Sys, t: Sys, req: Request)
    requires t == s.(lock := t.lock)
    ensures Passes(t, req) <==> Passes(s, req)
  {
    assert Others(t, req) == Others(s, req);
  }

  /** The lists of a device are sorted, as the library that reads them leaves them. */
  ghost predicate Sorted(d: Device) {
    Ascending(d.adapters) && Ascending(d.domains)
  }

  ghost predicate Readable(s: Sys, req: Request, cfgDir: seq<Uuid>, sysDir: seq<Uuid>) {
    && Sorted(req.dev) && Sorted(s.cfgMask) && Sorted(s.sysMask)
    && (forall u :: u in cfgDir <==> u in s.configs) && (forall u :: u in sysDir <==> u in s.active)
    && (forall u :: u in s.configs ==> Sorted(s.configs[u])) && (forall u :: u in s.active ==> Sorted(s.active[u]))
  }
}
