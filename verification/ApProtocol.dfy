/**
  The callout protocol that guards matrix device configurations.  Every
  command of the device manager (a process) makes a pre callout, which takes
  the configuration lock in the name of that process and checks for conflicts;
  if the callout succeeds, the command is carried out and a post callout
  releases the lock.  A live callout checks, applies the change and releases
  the lock in one go.  The steps of different processes interleave freely.
*/
module ApProtocol {
  import opened ApConflicts

  type Pid = nat
  /** Device names, with spellings that differ only in case identified. */
  type Uuid = nat

  datatype Device = Device(manual: bool, adapters: seq<nat>, domains: seq<nat>, controls: seq<nat>)

  datatype Action = Define | Modify | Start | Stop | Undefine | LiveModify

  /** A callout: what is to be done, and the device it reads; input says whether that could be read and has the right type. */
  datatype Request = Request(action: Action, uuid: Uuid, dev: Device, input: bool)

  datatype Owner = Nobody | Held(pid: Pid)

  /** Where a process stands. */
  datatype Phase =
    | Idle
    | Checking(req: Request, seen: set<Uuid>, masks: bool, ok: bool)  // inside the callout
    | Approved(req: Request)                                          // pre callout left with success
    | Finished                                                        // command carried out or given up

  datatype Sys = Sys(
    lock: Owner,
    phase: map<Pid, Phase>,
    configs: map<Uuid, Device>,
    active: map<Uuid, Device>,
    cfgMask: Device,
    sysMask: Device)

  ghost function DevQueues(d: Device): set<Apqn> {
    Queues(d.adapters, d.domains)
  }

  /** Two devices share no queue. */
  ghost predicate Apart(d: Device, e: Device) {
    DevQueues(d) !! DevQueues(e)
  }

  function PhaseOf(s: Sys, p: Pid): Phase {
    if p in s.phase then s.phase[p] else Idle
  }

  // ------------------------------------------------------------------
  // What is checked
  // ------------------------------------------------------------------

  /** Start and live modify are checked against what is active, the others against what is stored. */
  predicate AgainstActive(req: Request) {
    req.action == Start || req.action == LiveModify
  }

  predicate AgainstStored(req: Request) {
    (req.action == Define || req.action == Modify) && !req.dev.manual
  }

  /** The other devices a request is compared with. */
  function Others(s: Sys, req: Request): map<Uuid, Device> {
    if AgainstActive(req) then map u | u in s.active && u != req.uuid :: s.active[u]
    else if AgainstStored(req) then map u | u in s.configs && u != req.uuid && !s.configs[u].manual :: s.configs[u]
    else map[]
  }

  function MaskOf(s: Sys, req: Request): Device {
    if AgainstActive(req) then s.sysMask else s.cfgMask
  }

  /** The device itself is acceptable. */
  predicate InputOk(req: Request) {
    && (req.action != Stop ==> req.input)
    && (AgainstActive(req) ==> !(req.dev.domains == [] && req.dev.controls != []))
  }

  /** The request conflicts with nothing. */
  ghost predicate Passes(s: Sys, req: Request) {
    && InputOk(req)
    && (forall u :: u in Others(s, req) ==> Apart(req.dev, Others(s, req)[u]))
    && (AgainstActive(req) || AgainstStored(req) ==> Apart(req.dev, MaskOf(s, req)))
  }

  // ------------------------------------------------------------------
  // Steps
  // ------------------------------------------------------------------

  datatype Step =
    | Enter(pid: Pid, req: Request)
    | Look(pid: Pid, uuid: Uuid)
    | LookMasks(pid: Pid)
    | Leave(pid: Pid, applied: bool)
    | Carry(pid: Pid, done: bool)
    | Post(pid: Pid)

  /** The effect of a command that is carried out. */
  function Effect(s: Sys, req: Request): Sys {
    match req.action
    case Define => s.(configs := s.configs[req.uuid := req.dev])
    case Modify => s.(configs := s.configs[req.uuid := req.dev])
    case Start => s.(active := s.active[req.uuid := req.dev])
    case LiveModify => s.(active := s.active[req.uuid := req.dev])
    case Stop => s.(active := s.active - {req.uuid})
    case Undefine => s.(configs := s.configs - {req.uuid})
  }

  function SetPhase(s: Sys, p: Pid, ph: Phase): Sys {
    s.(phase := s.phase[p := ph])
  }

  /** The lock is only released in the name of the process that holds it. */
  function Release(s: Sys, p: Pid): Sys {
    if s.lock == Held(p) then s.(lock := Nobody) else s
  }

  /** The step can happen. */
  predicate Enabled(s: Sys, step: Step) {
    var ph := PhaseOf(s, step.pid);
    match step
    case Enter(_, _) => ph.Idle?
    case Look(_, u) => ph.Checking? && u in Others(s, ph.req)
    case LookMasks(_) => ph.Checking?
    case Leave(_, _) => ph.Checking? && ph.masks && Others(s, ph.req).Keys <= ph.seen
    case Carry(_, _) => ph.Approved?
    case Post(_) => ph.Finished?
  }

  /** What the step does. */
  ghost function Do(s: Sys, step: Step): Sys
    requires Enabled(s, step)
  {
    var p, ph := step.pid, PhaseOf(s, step.pid);
    match step
    case Enter(_, req) =>
      // a lock that somebody holds makes the callout fail before it has changed anything
      if s.lock == Nobody then SetPhase(s.(lock := Held(p)), p, Checking(req, {}, false, InputOk(req))) else s
    case Look(_, u) =>
      SetPhase(s, p, ph.(seen := ph.seen + {u}, ok := ph.ok && Apart(ph.req.dev, Others(s, ph.req)[u])))
    case LookMasks(_) =>
      SetPhase(s, p, ph.(masks := true,
        ok := ph.ok && (AgainstActive(ph.req) || AgainstStored(ph.req) ==> Apart(ph.req.dev, MaskOf(s, ph.req)))))
    case Leave(_, applied) =>
      if !ph.ok then SetPhase(Release(s, p), p, Idle)
      else if ph.req.action == LiveModify then
        SetPhase(Release(if applied then Effect(s, ph.req) else s, p), p, Idle)
      else SetPhase(s, p, Approved(ph.req))
    case Carry(_, done) => SetPhase(if done then Effect(s, ph.req) else s, p, Finished)
    case Post(_) => SetPhase(Release(s, p), p, Idle)
  }

  // ------------------------------------------------------------------
  // Safety
  // ------------------------------------------------------------------

  /** The devices are pairwise apart and apart from the mask. */
  ghost predicate Disjoint(devs: map<Uuid, Device>, mask: Device) {
    && (forall u, v :: u in devs && v in devs && u != v ==> Apart(devs[u], devs[v]))
    && (forall u :: u in devs ==> Apart(devs[u], mask))
  }

  ghost function Autos(configs: map<Uuid, Device>): map<Uuid, Device> {
    map u | u in configs && !configs[u].manual :: configs[u]
  }

  ghost predicate Safe(s: Sys) {
    Disjoint(Autos(s.configs), s.cfgMask) && Disjoint(s.active, s.sysMask)
  }

  /** The verdict of a callout so far covers exactly what it has looked at. */
  ghost predicate VerdictOk(s: Sys, ph: Phase)
    requires ph.Checking?
  {
    ph.ok <==>
      && InputOk(ph.req)
      && (forall u :: u in Others(s, ph.req) && u in ph.seen ==> Apart(ph.req.dev, Others(s, ph.req)[u]))
      && (ph.masks && (AgainstActive(ph.req) || AgainstStored(ph.req)) ==> Apart(ph.req.dev, MaskOf(s, ph.req)))
  }

  ghost predicate PhaseOk(s: Sys, p: Pid) {
    var ph := PhaseOf(s, p);
    && (s.lock == Held(p) <==> !ph.Idle?)
    && (ph.Checking? ==> VerdictOk(s, ph))
    && (ph.Approved? ==> Passes(s, ph.req))
  }

  ghost predicate Inv(s: Sys) {
    Safe(s) && forall p :: PhaseOk(s, p)
  }

  /** Devices that stay, plus at most one that is apart from them and from the mask. */
  lemma StaysDisjoint(devs: map<Uuid, Device>, after: map<Uuid, Device>, mask: Device, u: Uuid, d: Device)
    requires Disjoint(devs, mask)
    requires forall v :: v in after && v != u ==> v in devs && after[v] == devs[v]
    requires u in after ==> after[u] == d && Apart(d, mask) && forall v :: v in after && v != u ==> Apart(d, devs[v])
    ensures Disjoint(after, mask)
  {
    forall v, w | v in after && w in after && v != w ensures Apart(after[v], after[w]) {
    }
  }

  /** Carrying out a request that passes keeps the devices apart. */
  lemma EffectSafe(s: Sys, req: Request)
    requires Safe(s) && Passes(s, req)
    ensures Safe(Effect(s, req))
  {
    hide Disjoint, Apart;
    var t := Effect(s, req);
    if AgainstActive(req) || req.action == Stop {
      forall u | u in t.active && u != req.uuid && AgainstActive(req) ensures Apart(req.dev, s.active[u]) {
        assert u in Others(s, req) && Others(s, req)[u] == s.active[u];
      }
      StaysDisjoint(s.active, t.active, s.sysMask, req.uuid, req.dev);
    } else {
      forall u | u in Autos(t.configs) && u != req.uuid && AgainstStored(req) ensures Apart(req.dev, s.configs[u]) {
        assert u in Others(s, req) && Others(s, req)[u] == s.configs[u];
      }
      StaysDisjoint(Autos(s.configs), Autos(t.configs), s.cfgMask, req.uuid, req.dev);
    }
  }

  /** Complete verdicts are exact: a callout leaves with success if and only if nothing conflicts. */
  lemma VerdictExact(s: Sys, p: Pid)
    requires Inv(s) && Enabled(s, Leave(p, true))
    ensures PhaseOf(s, p).ok <==> Passes(s, PhaseOf(s, p).req)
  {
    assert PhaseOk(s, p);
  }

  /** Only the process that holds the lock changes devices or phases, so the others keep their standing. */
  lemma Bystander(s: Sys, step: Step, p: Pid)
    requires Inv(s) && Enabled(s, step) && p != step.pid
    ensures PhaseOk(Do(s, step), p)
  {
    hide Safe, Passes, VerdictOk;
    assert PhaseOk(s, p) && PhaseOk(s, step.pid);
  }

  /** The process that makes the step keeps its standing. */
  lemma Mover(s: Sys, step: Step)
    requires Inv(s) && Enabled(s, step)
    ensures PhaseOk(Do(s, step), step.pid)
  {
    hide Safe, Apart;
    assert PhaseOk(s, step.pid);
  }

  /** Every step keeps the invariant. */
  lemma StepKeepsInv(s: Sys, step: Step)
    requires Inv(s) && Enabled(s, step)
    ensures Inv(Do(s, step))
  {
    hide PhaseOk, Disjoint, Passes;
    var t := Do(s, step);
    Mover(s, step);
    forall p ensures PhaseOk(t, p) {
      if p != step.pid { Bystander(s, step, p); }
    }
    DevicesSafe(s, step);
  }

  lemma DevicesSafe(s: Sys, step: Step)
    requires Inv(s) && Enabled(s, step)
    ensures Safe(Do(s, step))
  {
    hide Disjoint, Passes, Apart;
    assert PhaseOk(s, step.pid);
    var ph := PhaseOf(s, step.pid);
    if step.Leave? && ph.ok {
      VerdictExact(s, step.pid);
      EffectSafe(s, ph.req);
    } else if step.Carry? {
      EffectSafe(s, ph.req);
    }
  }

  /** A run: any number of processes, their steps in any order. */
  ghost predicate Run(states: seq<Sys>, steps: seq<Step>) {
    && |states| == |steps| + 1
    && forall i :: 0 <= i < |steps| ==> Enabled(states[i], steps[i]) && states[i + 1] == Do(states[i], steps[i])
  }

  ghost predicate Initial(s: Sys) {
    Safe(s) && s.lock == Nobody && s.phase == map[]
  }

  /**
    In every state of every run the autostart configurations are pairwise
    apart, the active devices are pairwise apart, both are apart from the
    masks, and the lock is held exactly by the one process that is at work.
  */
  lemma {:induction false} RunSafe(states: seq<Sys>, steps: seq<Step>, n: nat)
    requires Run(states, steps) && Initial(states[0]) && n < |states|
    ensures Inv(states[n])
    ensures forall p, q :: !PhaseOf(states[n], p).Idle? && !PhaseOf(states[n], q).Idle? ==> p == q
  {
    if n > 0 {
      RunSafe(states, steps, n - 1);
      assert Enabled(states[n - 1], steps[n - 1]);
      StepKeepsInv(states[n - 1], steps[n - 1]);
    }
    forall p, q | !PhaseOf(states[n], p).Idle? && !PhaseOf(states[n], q).Idle? ensures p == q {
      assert PhaseOk(states[n], p) && PhaseOk(states[n], q);
    }
  }

  /** A callout that fails leaves the lock as it found it, and no device changed. */
  lemma FailureLeavesNoLock(s: Sys, p: Pid, req: Request)
    requires Inv(s)
    ensures Enabled(s, Leave(p, true)) && !PhaseOf(s, p).ok ==>
      var t := Do(s, Leave(p, true));
      t.lock == Nobody && t.configs == s.configs && t.active == s.active && PhaseOf(t, p).Idle?
    ensures Enabled(s, Enter(p, req)) && s.lock != Nobody ==> Do(s, Enter(p, req)) == s
  {
    assert PhaseOk(s, p);
  }

  // ------------------------------------------------------------------
  // Callouts as a whole
  // ------------------------------------------------------------------

  /** What a callout makes of a system in which nobody holds the lock. */
  ghost function CalloutResult(s: Sys, p: Pid, req: Request, applied: bool): Sys {
    if !Passes(s, req) then SetPhase(s, p, Idle)
    else if req.action == LiveModify then SetPhase(if applied then Effect(s, req) else s, p, Idle)
    else SetPhase(s.(lock := Held(p)), p, Approved(req))
  }

  /** The verdict over the devices in a list. */
  ghost predicate Clean(s: Sys, req: Request, us: seq<Uuid>)
    requires forall u :: u in us ==> u in Others(s, req)
  {
    InputOk(req) && forall u :: u in us ==> Apart(req.dev, Others(s, req)[u])
  }

  /** Inside the callout, the devices in the list looked at. */
  ghost function Looked(s: Sys, p: Pid, req: Request, us: seq<Uuid>): Sys
    requires forall u :: u in us ==> u in Others(s, req)
  {
    SetPhase(s, p, Checking(req, Elems(us), false, Clean(s, req, us)))
  }

  lemma LookOne(s: Sys, p: Pid, req: Request, us: seq<Uuid>, u: Uuid)
    requires forall v :: v in us + [u] ==> v in Others(s, req)
    ensures forall v :: v in us ==> v in Others(s, req)
    ensures Enabled(Looked(s, p, req, us), Look(p, u))
    ensures Do(Looked(s, p, req, us), Look(p, u)) == Looked(s, p, req, us + [u])
  {
    forall v | v in us ensures v in Others(s, req) { assert v in us + [u]; }
    assert u in us + [u];
    var t := Looked(s, p, req, us);
    assert Others(t, req) == Others(s, req);
    assert Elems(us) + {u} == Elems(us + [u]);
    assert Do(t, Look(p, u)).phase == Looked(s, p, req, us + [u]).phase;
  }

  /** Looking at one device after the other. */
  lemma {:induction false} LookAll(s: Sys, p: Pid, req: Request, us: seq<Uuid>) returns (states: seq<Sys>, steps: seq<Step>)
    requires forall u :: u in us ==> u in Others(s, req)
    ensures Run(states, steps) && states[0] == Looked(s, p, req, []) && states[|steps|] == Looked(s, p, req, us)
    ensures forall k :: 0 <= k < |steps| ==> steps[k].pid == p
  {
    if us == [] {
      states, steps := [Looked(s, p, req, [])], [];
    } else {
      hide Run, Looked;
      var front, u := us[..|us| - 1], us[|us| - 1];
      assert us == front + [u];
      LookOne(s, p, req, front, u);
      states, steps := LookAll(s, p, req, front);
      states, steps := OneMore(states, steps, Look(p, u));
    }
  }

  lemma OneMore(states: seq<Sys>, steps: seq<Step>, step: Step) returns (states': seq<Sys>, steps': seq<Step>)
    requires Run(states, steps) && Enabled(states[|steps|], step)
    ensures steps' == steps + [step] && Run(states', steps') && states'[0] == states[0]
    ensures states'[|steps'|] == Do(states[|steps|], step)
  {
    states', steps' := states + [Do(states[|steps|], step)], steps + [step];
  }

  lemma Prepend(s: Sys, step: Step, states: seq<Sys>, steps: seq<Step>) returns (states': seq<Sys>, steps': seq<Step>)
    requires Run(states, steps) && Enabled(s, step) && states[0] == Do(s, step)
    ensures steps' == [step] + steps && Run(states', steps') && states'[0] == s && states'[|steps'|] == states[|steps|]
  {
    states', steps' := [s] + states, [step] + steps;
  }

  lemma EnterLooks(s: Sys, p: Pid, req: Request)
    requires s.lock == Nobody && PhaseOf(s, p).Idle?
    ensures Do(s, Enter(p, req)) == Looked(s.(lock := Held(p)), p, req, [])
  {
    assert Elems([]) == {};
  }

  /** The end of a callout that has looked at all other devices. */
  lemma LookedLeaves(s: Sys, p: Pid, req: Request, us: seq<Uuid>, applied: bool)
    requires s.lock == Nobody && forall u :: u in us <==> u in Others(s, req)
    ensures forall u :: u in us ==> u in Others(s.(lock := Held(p)), req)
    ensures
      var t := Looked(s.(lock := Held(p)), p, req, us);
      && Enabled(t, LookMasks(p)) && Enabled(Do(t, LookMasks(p)), Leave(p, applied))
      && Do(Do(t, LookMasks(p)), Leave(p, applied)) == CalloutResult(s, p, req, applied)
  {
    hide Apart;
    var held := s.(lock := Held(p));
    assert Others(held, req) == Others(s, req);
    var t := Looked(held, p, req, us);
    var v := Do(t, LookMasks(p));
    assert Others(v, req) == Others(s, req);
    assert v.phase[p].ok <==> Passes(s, req);
    assert Do(v, Leave(p, applied)).phase == CalloutResult(s, p, req, applied).phase;
  }

  /** A callout that looks at all other devices in any order is a run of the protocol with exactly this result. */
  lemma CalloutRuns(s: Sys, p: Pid, req: Request, us: seq<Uuid>, applied: bool) returns (states: seq<Sys>, steps: seq<Step>)
    requires s.lock == Nobody && PhaseOf(s, p).Idle? && forall u :: u in us <==> u in Others(s, req)
    ensures Run(states, steps) && states[0] == s && states[|steps|] == CalloutResult(s, p, req, applied)
    ensures forall k :: 0 <= k < |steps| ==> steps[k].pid == p
  {
    hide Run, Looked, CalloutResult, Do, Others;
    LookedLeaves(s, p, req, us, applied);
    EnterLooks(s, p, req);
    states, steps := LookAll(s.(lock := Held(p)), p, req, us);
    states, steps := OneMore(states, steps, LookMasks(p));
    states, steps := OneMore(states, steps, Leave(p, applied));
    states, steps := Prepend(s, Enter(p, req), states, steps);
  }
}
