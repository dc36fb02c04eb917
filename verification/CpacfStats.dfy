/**
  The daemon and the client as they run: loops that send and receive messages
  over an ordered, reliable connection.
*/
module CpacfStats {
  import opened CpacfSession

  // ------------------------------------------------------------------
  // The daemon
  // ------------------------------------------------------------------

  class Daemon {
    const env: Env
    /** Current counter states. */
    var states: seq<int>
    /** Messages sent, with what they are about; only the message itself travels. */
    var sent: seq<Sent>

    constructor (env: Env)
      ensures this.env == env && states == env.states && sent == []
    {
      this.env, states, sent := env, env.states, [];
    }

    method SendAnswer(ctr: nat, state: int, value: nat, role: Role)
      modifies this`sent
      ensures sent == old(sent) + [Sent(Answer(ctr, state, value), role)]
    {
      sent := sent + [Sent(Answer(ctr, state, value), role)];
    }

    /** Counts the supported counters of user or kernel space. */
    method CountSupported(user: bool) returns (c: nat)
      requires EnvOk(env)
      ensures c == Announcement(env, user)
    {
      c := 0;
      var i := 0;
      while i < MAX_NUM_PAI
        invariant 0 <= i <= MAX_NUM_PAI && c == Count(AnnouncedOf(env, user), Range(0, i))
      {
        assert Range(0, i + 1)[..i] == Range(0, i);
        if (user ==> env.kinds[i] == KernelAndUser) && env.supported[i] {
          c := c + 1;
        }
        i := i + 1;
      }
    }

    method ReadCtr(i: nat) returns (rc: int, value: nat)
      requires EnvOk(env) && i < NUM_COUNTER && i != ALL_COUNTER
      ensures rc == if ReadFails(env, i) then -1 else 0
      ensures rc == 0 ==> value == ReadValue(env, i)
    {
      if i == PAI_USER {
        value := CountSupported(true);
        return 0, value;
      }
      if i == PAI_KERNEL {
        value := CountSupported(false);
        return 0, value;
      }
      return if env.readFails(i) then -1 else 0, env.value(i);
    }

    method EnableCtr(i: nat) returns (rc: int)
      requires i < |states|
      modifies this`states
      ensures states == old(states)[i := ENABLED] && rc == if env.enableFails(i) then -1 else 0
    {
      states := states[i := ENABLED];
      return if env.enableFails(i) then -1 else 0;
    }

    method DisableCtr(i: nat) returns (rc: int)
      requires i < |states|
      modifies this`states
      ensures states == old(states)[i := DISABLED] && rc == if env.disableFails(i) then -1 else 0
    {
      states := states[i := DISABLED];
      return if env.disableFails(i) then -1 else 0;
    }

    method ResetCtr(i: nat) returns (rc: int, value: nat)
      requires EnvOk(env) && i < NUM_COUNTER && i != ALL_COUNTER
      ensures rc == if env.resetFails(i) || ReadFails(env, i) then -1 else 0
      ensures rc == 0 ==> value == ReadValue(env, i)
    {
      if env.resetFails(i) {
        return -1, 0;
      }
      rc, value := ReadCtr(i);
    }

    /** Sends the details of an enabled virtual counter, up to the first that cannot be read. */
    method SendPai(user: bool) returns (rc: int)
      requires EnvOk(env) && |states| == NUM_COUNTER
      modifies this`sent
      ensures states[Virtual(user)] != ENABLED ==> sent == old(sent) && rc == 0
      ensures states[Virtual(user)] == ENABLED ==>
        sent == old(sent) + Details(env, user, 0) && rc == if DetailsFail(env, user, 0) then -1 else 0
    {
      rc := 0;
      var state := states[Virtual(user)];
      if state != ENABLED {
        return;
      }
      hide PaiIdx, DetailsFail, Details, Selected;
      var i := 0;
      while i < MAX_NUM_PAI
        invariant 0 <= i <= MAX_NUM_PAI && sent + Details(env, user, i) == old(sent) + Details(env, user, 0)
        invariant DetailsFail(env, user, i) <==> DetailsFail(env, user, 0)
      {
        var current := PaiIdx()[i];
        FailsLater(env, user, i);
        DetailStep(env, user, i, sent);
        if Selected(env, user, current) {
          if env.paiFails(current, user) {
            SendAnswer(current, -1, 0, Detail(Virtual(user)));
            return -1;
          }
          SendAnswer(current, state, env.paiValue(current, user), Detail(Virtual(user)));
        }
        i := i + 1;
      }
      NoneLeft(env, user);
      DetailsEnd(env, user, sent);
    }

    /** What has been sent and what is still to be sent make up the answers to the query. */
    ghost predicate Underway(cmd: Cmd, ctr: nat, i: nat, value: nat, rc: int, start: seq<Sent>)
      requires EnvOk(env) && i <= NUM_COUNTER
      reads this
    {
      && |states| == NUM_COUNTER && (forall j :: i <= j < NUM_COUNTER ==> states[j] == env.states[j])
      && (i <= PAI_USER ==> rc == 0)
      && sent + Answers(env, cmd, ctr, i, value, rc != 0) == start + Answers(env, cmd, ctr, 0, 0, false)
    }

    /** A failed command on counter i is the last thing to report. */
    method Report(cmd: Cmd, ctr: nat, i: nat, ghost value: nat, ghost rc: int, ghost start: seq<Sent>)
      requires EnvOk(env) && i < NUM_COUNTER && Chosen(ctr, i) && Fails(env, cmd, i)
      requires sent + Answers(env, cmd, ctr, i, value, rc != 0) == start + Answers(env, cmd, ctr, 0, 0, false)
      modifies this`sent
      ensures sent == start + Answers(env, cmd, ctr, 0, 0, false)
    {
      hide Fails;
      SendAnswer(i, -1, 0, Head(i));
    }

    /** Reports counter i, and the details of a virtual counter. */
    method Reply(cmd: Cmd, ctr: nat, i: nat, state: int, value: nat, rc: int, ghost before: nat, ghost was: int, ghost start: seq<Sent>)
      returns (rc': int)
      requires EnvOk(env) && i < NUM_COUNTER && Chosen(ctr, i) && !Fails(env, cmd, i) && |states| == NUM_COUNTER
      requires state == states[i] == StateAfter(env, cmd, i) && value == ValueAfter(env, cmd, i, before)
      requires forall j :: i < j < NUM_COUNTER ==> states[j] == env.states[j]
      requires (i < PAI_USER || cmd == Disable ==> rc == 0) && (i <= PAI_USER || cmd == Disable ==> was == 0)
      requires sent + Answers(env, cmd, ctr, i, before, was != 0) == start + Answers(env, cmd, ctr, 0, 0, false)
      modifies this`sent
      ensures Underway(cmd, ctr, i + 1, value, rc', start)
      ensures cmd == Disable ==> rc' == 0
    {
      AnswerStep(env, cmd, ctr, i, before, was != 0, sent);
      hide Fails, Details, DetailsFail, StateAfter, ValueAfter, Answers;
      SendAnswer(i, state, value, Head(i));
      rc' := rc;
      if cmd != Disable {
        if i == PAI_USER {
          rc' := SendPai(true);
        }
        if i == PAI_KERNEL {
          rc' := SendPai(false);
        }
      }
      if Behind(env, cmd, i) == [] { NothingBehind(old(sent) + [Sent(Answer(i, state, value), Head(i))]); }
    }

    /** The hotplug state ends a session without errors. */
    method Finish(cmd: Cmd, ctr: nat, ghost value: nat, rc: int, ghost start: seq<Sent>)
      requires EnvOk(env) && Underway(cmd, ctr, NUM_COUNTER, value, rc, start)
      modifies this`sent
      ensures sent == start + Answers(env, cmd, ctr, 0, 0, false)
    {
      if rc == 0 {
        SendAnswer(HOTPLUG_DETECTED, 0, env.hotplug, Hotplug);
      }
    }

    method DoPrint(ctr: nat) returns (ok: bool)
      requires EnvOk(env) && states == env.states
      modifies this`sent
      ensures sent == old(sent) + Answers(env, Print, ctr, 0, 0, false)
    {
      hide Answers;
      var value, rc, i := 0, 0, 0;
      while i < NUM_COUNTER
        invariant 0 <= i <= NUM_COUNTER && states == env.states && Underway(Print, ctr, i, value, rc, old(sent))
      {
        if i == ALL_COUNTER || !(i == ctr || ctr == ALL_COUNTER) {
          SkipAnswer(env, Print, ctr, i, value, rc != 0);
        } else {
          ghost var before, was := value, rc;
          var state := states[i];
          if state == ENABLED {
            rc, value := ReadCtr(i);
            if rc != 0 {
              Report(Print, ctr, i, before, was, old(sent));
              return false;
            }
          }
          rc := Reply(Print, ctr, i, state, value, rc, before, was, old(sent));
        }
        i := i + 1;
      }
      Finish(Print, ctr, value, rc, old(sent));
      return rc == 0;
    }

    method DoReset(ctr: nat) returns (ok: bool)
      requires EnvOk(env) && states == env.states
      modifies this`sent
      ensures sent == old(sent) + Answers(env, Reset, ctr, 0, 0, false)
    {
      hide Answers;
      var value, rc, i := 0, 0, 0;
      while i < NUM_COUNTER
        invariant 0 <= i <= NUM_COUNTER && states == env.states && Underway(Reset, ctr, i, value, rc, old(sent))
      {
        if i == ALL_COUNTER || !(i == ctr || ctr == ALL_COUNTER) {
          SkipAnswer(env, Reset, ctr, i, value, rc != 0);
        } else {
          ghost var before, was := value, rc;
          var state := states[i];
          if state == ENABLED {
            rc, value := ResetCtr(i);
            if rc != 0 {
              Report(Reset, ctr, i, before, was, old(sent));
              return false;
            }
          }
          rc := Reply(Reset, ctr, i, state, value, rc, before, was, old(sent));
        }
        i := i + 1;
      }
      Finish(Reset, ctr, value, rc, old(sent));
      return rc == 0;
    }

    method DoEnable(ctr: nat) returns (ok: bool)
      requires EnvOk(env) && states == env.states
      modifies this`sent, this`states
      ensures sent == old(sent) + Answers(env, Enable, ctr, 0, 0, false)
    {
      hide Answers;
      var value, rc, i := 0, 0, 0;
      while i < NUM_COUNTER
        invariant 0 <= i <= NUM_COUNTER && Underway(Enable, ctr, i, value, rc, old(sent))
      {
        if i == ALL_COUNTER || !(i == ctr || ctr == ALL_COUNTER) {
          SkipAnswer(env, Enable, ctr, i, value, rc != 0);
        } else {
          ghost var before, was := value, rc;
          var state := states[i];
          if state == DISABLED {
            rc := EnableCtr(i);
            if rc != 0 {
              Report(Enable, ctr, i, before, was, old(sent));
              return false;
            }
            state := ENABLED;
          }
          if state != UNSUPPORTED && state != UNAUTHORIZED {
            rc, value := ReadCtr(i);
            if rc != 0 {
              Report(Enable, ctr, i, before, was, old(sent));
              return false;
            }
          }
          rc := Reply(Enable, ctr, i, state, value, rc, before, was, old(sent));
        }
        i := i + 1;
      }
      Finish(Enable, ctr, value, rc, old(sent));
      return rc == 0;
    }

    method DoDisable(ctr: nat) returns (ok: bool)
      requires EnvOk(env) && states == env.states
      modifies this`sent, this`states
      ensures sent == old(sent) + Answers(env, Disable, ctr, 0, 0, false)
    {
      hide Answers;
      ghost var value := 0;
      var rc, i := 0, 0;
      while i < NUM_COUNTER
        invariant 0 <= i <= NUM_COUNTER && rc == 0 && Underway(Disable, ctr, i, value, rc, old(sent))
      {
        if i == ALL_COUNTER || !(i == ctr || ctr == ALL_COUNTER) {
          SkipAnswer(env, Disable, ctr, i, value, rc != 0);
        } else {
          ghost var before, was := value, rc;
          if states[i] == ENABLED {
            rc := DisableCtr(i);
            if rc != 0 {
              Report(Disable, ctr, i, before, was, old(sent));
              return false;
            }
          }
          rc := Reply(Disable, ctr, i, states[i], 0, rc, before, was, old(sent));
          value := 0;
        }
        i := i + 1;
      }
      Finish(Disable, ctr, value, rc, old(sent));
      return true;
    }

    /** Serves one query. */
    method Serve(cmd: Cmd, ctr: nat) returns (ok: bool)
      requires EnvOk(env) && states == env.states
      modifies this
      ensures sent == old(sent) + Answers(env, cmd, ctr, 0, 0, false)
    {
      match cmd {
        case Enable => ok := DoEnable(ctr);
        case Disable => ok := DoDisable(ctr);
        case Reset => ok := DoReset(ctr);
        case Print => ok := DoPrint(ctr);
      }
    }
  }

  // ------------------------------------------------------------------
  // Steps of the answers
  // ------------------------------------------------------------------

  lemma DetailStep(env: Env, user: bool, k: nat, was: seq<Sent>)
    requires EnvOk(env) && k < MAX_NUM_PAI
    ensures
      var c := PaiIdx()[k];
      && (!Selected(env, user, c) ==> Details(env, user, k) == Details(env, user, k + 1))
      && (Selected(env, user, c) && env.paiFails(c, user) ==>
           was + Details(env, user, k) == was + [Sent(Answer(c, -1, 0), Detail(Virtual(user)))])
      && (Selected(env, user, c) && !env.paiFails(c, user) ==>
           was + Details(env, user, k)
             == was + [Sent(Answer(c, ENABLED, env.paiValue(c, user)), Detail(Virtual(user)))] + Details(env, user, k + 1))
  {
    hide PaiIdx, Selected;
    var c := PaiIdx()[k];
    var m := [Sent(Answer(c, ENABLED, env.paiValue(c, user)), Detail(Virtual(user)))];
    assert was + (m + Details(env, user, k + 1)) == was + m + Details(env, user, k + 1);
  }

  lemma DetailsEnd(env: Env, user: bool, was: seq<Sent>)
    requires EnvOk(env)
    ensures was + Details(env, user, MAX_NUM_PAI) == was
  {
  }

  lemma NothingBehind(was: seq<Sent>)
    ensures was + [] == was
  {
  }

  lemma AnswerStep(env: Env, cmd: Cmd, ctr: nat, i: nat, before: nat, bad: bool, was: seq<Sent>)
    requires EnvOk(env) && i < NUM_COUNTER && Chosen(ctr, i) && !Fails(env, cmd, i)
    ensures
      var v := ValueAfter(env, cmd, i, before);
      was + Answers(env, cmd, ctr, i, before, bad)
        == was + [Sent(Answer(i, StateAfter(env, cmd, i), v), Head(i))] + Behind(env, cmd, i)
           + Answers(env, cmd, ctr, i + 1, v, if i >= PAI_USER then BehindFails(env, cmd, i) else bad)
  {
    hide Behind, BehindFails, Fails, ValueAfter, StateAfter;
    var v := ValueAfter(env, cmd, i, before);
    var head, behind := [Sent(Answer(i, StateAfter(env, cmd, i), v), Head(i))], Behind(env, cmd, i);
    var later := Answers(env, cmd, ctr, i + 1, v, if i >= PAI_USER then BehindFails(env, cmd, i) else bad);
    assert was + (head + behind + later) == was + head + behind + later;
  }

  lemma SkipAnswer(env: Env, cmd: Cmd, ctr: nat, i: nat, value: nat, bad: bool)
    requires EnvOk(env) && i < NUM_COUNTER && !Chosen(ctr, i)
    ensures Answers(env, cmd, ctr, i, value, bad) == Answers(env, cmd, ctr, i + 1, value, bad)
  {
  }

  // ------------------------------------------------------------------
  // The client
  // ------------------------------------------------------------------

  class Receiver {
    const env: Env
    /** Messages not read yet. */
    var wire: seq<Answer>
    /** What each message read was taken for. */
    ghost var roles: seq<Role>

    constructor (env: Env, wire: seq<Answer>)
      ensures this.env == env && this.wire == wire && roles == []
    {
      this.env, this.wire, roles := env, wire, [];
    }

    /** Reads the next message; it fails when the daemon has closed the connection. */
    method RecvAnswer() returns (ok: bool, m: Answer)
      modifies this`wire
      ensures ok <==> old(wire) != []
      ensures if ok then m == old(wire)[0] && wire == old(wire)[1..] else wire == old(wire)
    {
      m := Answer(0, 0, 0);
      ok := wire != [];
      if ok {
        m, wire := wire[0], wire[1..];
      }
    }

    method NumUserSpaceCtrs() returns (c: nat)
      requires EnvOk(env)
      ensures c == UserCounters(env)
    {
      ghost var P := (c: nat) => c < MAX_NUM_PAI && env.kinds[c] == KernelAndUser;
      c := 0;
      var i := 0;
      while i < MAX_NUM_PAI
        invariant 0 <= i <= MAX_NUM_PAI && c == Count(P, Range(0, i))
      {
        assert Range(0, i + 1)[..i] == Range(0, i);
        if env.kinds[i] == KernelAndUser {
          c := c + 1;
        }
        i := i + 1;
      }
    }

    /** Handles what follows the message about a virtual counter; false ends the client. */
    method VirtualAnswer(ctr: nat, state: int, value: nat) returns (go: bool)
      requires EnvOk(env)
      modifies this
      ensures
        var details := (ctr == PAI_USER || ctr == PAI_KERNEL) && state == ENABLED;
        var k := TakeDetails(old(wire), value);
        && (go <==> details ==> value <= MaxDetails(env, ctr == PAI_USER))
        && wire == (if details && go then old(wire)[k..] else old(wire))
        && roles == (if details && go then old(roles) + seq(k, _ => Detail(ctr)) else old(roles))
    {
      var maxnum;
      if ctr == PAI_USER {
        maxnum := NumUserSpaceCtrs();
      } else if ctr == PAI_KERNEL {
        maxnum := MAX_NUM_PAI;
      } else {
        return true;
      }
      if state != ENABLED {
        return true;
      }
      if value > maxnum {
        return false;
      }
      Details(ctr, value);
      return true;
    }

    /** Reads as many details as announced, or fewer when one is an error or the connection ends. */
    method Details(ctr: nat, value: nat)
      modifies this
      ensures wire == old(wire)[TakeDetails(old(wire), value)..]
      ensures roles == old(roles) + seq(TakeDetails(old(wire), value), _ => Detail(ctr))
    {
      ghost var w, k := wire, TakeDetails(wire, value);
      var i := 0;
      while i < value
        invariant 0 <= i <= value && i <= k && wire == w[i..] && k == i + TakeDetails(w[i..], value - i)
        invariant roles == old(roles) + seq(i, _ => Detail(ctr))
      {
        var ok, m := RecvAnswer();
        if ok {
          roles := roles + [Detail(ctr)];
          assert w[i..][1..] == w[i + 1..];
          assert seq(i, _ => Detail(ctr)) + [Detail(ctr)] == seq(i + 1, _ => Detail(ctr));
        }
        if !ok || m.state < 0 {
          return;
        }
        i := i + 1;
      }
    }

    /** Reads the answers to a query about ctr; 0 when all were there. */
    method Receive(ctr: nat) returns (rc: int)
      requires EnvOk(env)
      modifies this
      ensures
        var seen := Client(env, old(wire), NumAnswers(ctr));
        && rc == (if seen.done then 0 else 1) && wire == seen.left && roles == old(roles) + seen.roles
    {
      hide TakeDetails, MaxDetails, Client;
      ghost var all := Client(env, wire, NumAnswers(ctr));
      var num, i := NumAnswers(ctr), 0;
      while i < num
        invariant 0 <= i <= num
        invariant
          var rest := Client(env, wire, num - i);
          rest.done == all.done && rest.left == all.left && roles + rest.roles == old(roles) + all.roles
      {
        ghost var w, was := wire, roles;
        ClientStops(env, w, num - i, was);
        var ok, m := RecvAnswer();
        if !ok {
          return 1;
        }
        roles := roles + [RoleOf(m)];
        if m.state < 0 {
          return 1;
        }
        var go := VirtualAnswer(m.ctr, m.state, m.value);
        ClientStep(env, w, num - i, was);
        if !go {
          return 1;
        }
        i := i + 1;
      }
      ClientStops(env, wire, 0, roles);
      return 0;
    }
  }

  /** Where the client stops without a further round. */
  lemma ClientStops(env: Env, w: seq<Answer>, n: nat, was: seq<Role>)
    requires EnvOk(env)
    ensures
      var c := Client(env, w, n);
      && (n == 0 ==> c.done && c.left == w && was + c.roles == was)
      && (n > 0 && w == [] ==> !c.done && c.left == w && was + c.roles == was)
      && (n > 0 && w != [] && w[0].state < 0 ==> !c.done && c.left == w[1..] && was + c.roles == was + [RoleOf(w[0])])
  {
  }

  /** One round of the client. */
  lemma ClientStep(env: Env, w: seq<Answer>, n: nat, was: seq<Role>)
    requires EnvOk(env) && n > 0 && w != [] && w[0].state >= 0
    ensures
      var m, details := w[0], (w[0].ctr == PAI_USER || w[0].ctr == PAI_KERNEL) && w[0].state == ENABLED;
      var c := Client(env, w, n);
      if details && m.value > MaxDetails(env, m.ctr == PAI_USER) then
        !c.done && c.left == w[1..] && was + c.roles == was + [RoleOf(m)]
      else
        var k := if details then TakeDetails(w[1..], m.value) else 0;
        var rest := Client(env, w[1..][k..], n - 1);
        && c.done == rest.done && c.left == rest.left
        && was + c.roles == was + [RoleOf(m)] + (if details then seq(k, _ => Detail(m.ctr)) else []) + rest.roles
  {
    hide TakeDetails, MaxDetails;
    var m := w[0];
    if (m.ctr == PAI_USER || m.ctr == PAI_KERNEL) && m.state == ENABLED {
      var k := TakeDetails(w[1..], m.value);
      assert w[1..][k..] == w[1 + k..];
    } else {
      assert w[1..][0..] == w[1..];
    }
  }

  // ------------------------------------------------------------------
  // The session
  // ------------------------------------------------------------------

  /**
    A whole session over a fresh connection: every message is taken for what
    it was sent as, nothing stays unread, and the client succeeds exactly when
    the command failed nowhere and the details sent last were complete.
  */
  method Session(env: Env, cmd: Cmd, ctr: nat) returns (rc: int, left: seq<Answer>, ghost meant: seq<Role>, ghost taken: seq<Role>)
    requires EnvOk(env) && NoneSuppressed(env) && ctr < NUM_COUNTER
    ensures taken == meant && left == []
    ensures rc == 0 <==>
      && (forall i :: 0 <= i < NUM_COUNTER && Chosen(ctr, i) ==> !Fails(env, cmd, i))
      && (ctr >= ALL_COUNTER ==> !BehindFails(env, cmd, if ctr == PAI_USER then PAI_USER else PAI_KERNEL))
  {
    hide NoneSuppressed, Fails, BehindFails, Client, Answers;
    var daemon := new Daemon(env);
    var ok := daemon.Serve(cmd, ctr);
    ghost var answers := Answers(env, cmd, ctr, 0, 0, false);
    assert [] + answers == answers;
    SessionAgreement(env, cmd, ctr);
    var client := new Receiver(env, Wire(daemon.sent));
    rc := client.Receive(ctr);
    left, meant, taken := client.wire, Roles(daemon.sent), client.roles;
    assert [] + taken == taken;
  }
}
