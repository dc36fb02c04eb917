/**
  A session between the counter client and its daemon.  The client sends one
  query; the daemon answers with one message per selected counter, after the
  two virtual counters with as many detail messages as announced, and at the
  end with the hotplug state.
*/
module CpacfSession {
  const MAX_NUM_PAI: nat := 172
  const ALL_COUNTER: nat := 5
  const PAI_USER: nat := 6
  const PAI_KERNEL: nat := 7
  const NUM_COUNTER: nat := 8
  const HOTPLUG_DETECTED: nat := 0xffff

  const DISABLED := 0
  const ENABLED := 1
  const UNSUPPORTED := 2
  const UNAUTHORIZED := 3

  datatype Cmd = Print | Enable | Disable | Reset

  datatype Kind = Suppressed | KernelAndUser | KernelOnly

  datatype Answer = Answer(ctr: nat, state: int, value: nat)

  /** What a message is about; the daemon knows it, the client has to find out. */
  datatype Role = Head(ctr: nat) | Detail(ctr: nat) | Hotplug

  datatype Sent = Sent(msg: Answer, role: Role)

  /** Counters, their states, and what the kernel does during the session. */
  datatype Env = Env(
    kinds: seq<Kind>,
    supported: seq<bool>,
    states: seq<int>,
    enableFails: nat -> bool,
    disableFails: nat -> bool,
    resetFails: nat -> bool,
    readFails: nat -> bool,
    value: nat -> nat,
    paiFails: (nat, bool) -> bool,
    paiValue: (nat, bool) -> nat,
    hotplug: nat)

  ghost predicate EnvOk(env: Env) {
    && |env.kinds| == |env.supported| == MAX_NUM_PAI && |env.states| == NUM_COUNTER
    && forall i :: 0 <= i < NUM_COUNTER ==> DISABLED <= env.states[i] <= UNAUTHORIZED
  }

  /** The table of the counters. */
  function Table(): (t: seq<Kind>)
    ensures |t| == MAX_NUM_PAI && forall i :: 0 <= i < MAX_NUM_PAI ==> t[i] != Suppressed
  {
    seq(MAX_NUM_PAI, i => if 143 <= i < 156 || 168 <= i then KernelOnly else KernelAndUser)
  }

  // ------------------------------------------------------------------
  // Counting
  // ------------------------------------------------------------------

  function Range(a: nat, b: nat): (r: seq<nat>)
    requires a <= b
    ensures |r| == b - a && forall i :: 0 <= i < |r| ==> r[i] == a + i
  {
    seq(b - a, i requires 0 <= i => a + i)
  }

  /** The counter numbers sorted by instruction. */
  function PaiIdx(): (r: seq<nat>)
    ensures |r| == MAX_NUM_PAI && forall i :: 0 <= i < |r| ==> r[i] < MAX_NUM_PAI
  {
    Range(0, 16) + Range(156, 160) + Range(16, 102) + Range(160, 168) + Range(102, 154) + Range(168, 172) + Range(154, 156)
  }

  /** A supported counter that is sent for user or kernel space. */
  predicate Selected(env: Env, user: bool, c: nat)
    requires |env.kinds| == |env.supported| == MAX_NUM_PAI && c < MAX_NUM_PAI
  {
    (if user then env.kinds[c] == KernelAndUser else env.kinds[c] != Suppressed) && env.supported[c]
  }

  /** A counter that is counted for the announcement. */
  predicate Announced(env: Env, user: bool, c: nat)
    requires |env.kinds| == |env.supported| == MAX_NUM_PAI && c < MAX_NUM_PAI
  {
    (user ==> env.kinds[c] == KernelAndUser) && env.supported[c]
  }

  /** How many of the counters in a list satisfy P. */
  ghost function Count(P: nat -> bool, s: seq<nat>): nat {
    if s == [] then 0 else Count(P, s[..|s| - 1]) + if P(s[|s| - 1]) then 1 else 0
  }

  lemma {:induction false} CountConcat(P: nat -> bool, a: seq<nat>, b: seq<nat>)
    ensures Count(P, a + b) == Count(P, a) + Count(P, b)
    decreases |b|
  {
    if b == [] {
      assert a + b == a;
    } else {
      assert (a + b)[..|a + b| - 1] == a + b[..|b| - 1];
      CountConcat(P, a, b[..|b| - 1]);
    }
  }

  lemma CountRange(P: nat -> bool, a: nat, b: nat, c: nat)
    requires a <= b <= c
    ensures Count(P, Range(a, c)) == Count(P, Range(a, b)) + Count(P, Range(b, c))
  {
    assert Range(a, c) == Range(a, b) + Range(b, c);
    CountConcat(P, Range(a, b), Range(b, c));
  }

  /** The sorted list names every counter exactly once. */
  lemma CountIdx(P: nat -> bool)
    ensures Count(P, PaiIdx()) == Count(P, Range(0, MAX_NUM_PAI))
  {
    var a, b, c := Range(0, 16) + Range(156, 160), Range(16, 102) + Range(160, 168), Range(102, 154) + Range(168, 172);
    assert PaiIdx() == ((a + b) + c) + Range(154, 156);
    CountConcat(P, (a + b) + c, Range(154, 156));
    CountConcat(P, a + b, c);
    CountConcat(P, a, b);
    CountConcat(P, Range(0, 16), Range(156, 160));
    CountConcat(P, Range(16, 102), Range(160, 168));
    CountConcat(P, Range(102, 154), Range(168, 172));
    CountRange(P, 0, 16, 172);
    CountRange(P, 16, 102, 172);
    CountRange(P, 102, 154, 172);
    CountRange(P, 154, 156, 172);
    CountRange(P, 156, 160, 172);
    CountRange(P, 160, 168, 172);
  }

  ghost function SentOf(env: Env, user: bool): nat -> bool
    requires EnvOk(env)
  {
    (c: nat) => c < MAX_NUM_PAI && Selected(env, user, c)
  }

  ghost function AnnouncedOf(env: Env, user: bool): nat -> bool
    requires EnvOk(env)
  {
    (c: nat) => c < MAX_NUM_PAI && Announced(env, user, c)
  }

  /** The number that is announced for a virtual counter. */
  ghost function Announcement(env: Env, user: bool): nat
    requires EnvOk(env)
  {
    Count(AnnouncedOf(env, user), Range(0, MAX_NUM_PAI))
  }

  /** No supported counter is suppressed. */
  ghost predicate NoneSuppressed(env: Env)
    requires EnvOk(env)
  {
    forall c :: 0 <= c < MAX_NUM_PAI && env.supported[c] ==> env.kinds[c] != Suppressed
  }

  /** The counters the tools know have none suppressed. */
  lemma TableNoneSuppressed(env: Env)
    requires EnvOk(env) && env.kinds == Table()
    ensures NoneSuppressed(env)
  {
  }

  lemma {:induction false} CountLess(P: nat -> bool, Q: nat -> bool, s: seq<nat>)
    requires forall c :: P(c) ==> Q(c)
    ensures Count(P, s) <= Count(Q, s)
    ensures Count(P, s) == Count(Q, s) <==> forall i :: 0 <= i < |s| ==> P(s[i]) == Q(s[i])
  {
    if s != [] {
      var init := s[..|s| - 1];
      CountLess(P, Q, init);
      if forall i :: 0 <= i < |s| ==> P(s[i]) == Q(s[i]) {
        forall i | 0 <= i < |init| ensures P(init[i]) == Q(init[i]) {
          assert init[i] == s[i];
        }
      } else {
        var i :| 0 <= i < |s| && P(s[i]) != Q(s[i]);
        if i < |init| { assert init[i] == s[i]; }
      }
    }
  }

  /**
    Announced and sent counters agree for user space always, and for kernel
    space exactly when no supported counter is suppressed.
  */
  lemma CountsAgree(env: Env, user: bool)
    requires EnvOk(env)
    ensures Count(SentOf(env, user), PaiIdx()) <= Announcement(env, user) <= MAX_NUM_PAI
    ensures user ==> Count(SentOf(env, user), PaiIdx()) == Announcement(env, user)
    ensures !user ==> (Count(SentOf(env, user), PaiIdx()) == Announcement(env, user) <==> NoneSuppressed(env))
  {
    var all := Range(0, MAX_NUM_PAI);
    CountIdx(SentOf(env, user));
    CountLess(SentOf(env, user), AnnouncedOf(env, user), all);
    CountBound(AnnouncedOf(env, user), all);
    forall c | 0 <= c < MAX_NUM_PAI ensures SentOf(env, user)(c) == AnnouncedOf(env, user)(c) <==> user || (env.supported[c] ==> env.kinds[c] != Suppressed) {
    }
    if !user {
      if NoneSuppressed(env) {
      } else {
        var c :| 0 <= c < MAX_NUM_PAI && env.supported[c] && env.kinds[c] == Suppressed;
        assert all[c] == c;
      }
    }
  }

  lemma {:induction false} CountBound(P: nat -> bool, s: seq<nat>)
    ensures Count(P, s) <= |s|
  {
    if s != [] { CountBound(P, s[..|s| - 1]); }
  }

  // ------------------------------------------------------------------
  // What the daemon sends
  // ------------------------------------------------------------------

  function Virtual(user: bool): nat {
    if user then PAI_USER else PAI_KERNEL
  }

  /** The detail messages from place k of the sorted list on; the first error ends them. */
  ghost function Details(env: Env, user: bool, k: nat): seq<Sent>
    requires EnvOk(env) && k <= MAX_NUM_PAI
    decreases MAX_NUM_PAI - k
  {
    if k == MAX_NUM_PAI then [] else
      var c := PaiIdx()[k];
      if !Selected(env, user, c) then Details(env, user, k + 1)
      else if env.paiFails(c, user) then [Sent(Answer(c, -1, 0), Detail(Virtual(user)))]
      else [Sent(Answer(c, ENABLED, env.paiValue(c, user)), Detail(Virtual(user)))] + Details(env, user, k + 1)
  }

  /** A counter that is sent from place k on cannot be read. */
  ghost predicate DetailsFail(env: Env, user: bool, k: nat)
    requires EnvOk(env) && k <= MAX_NUM_PAI
  {
    exists j :: k <= j < MAX_NUM_PAI && Selected(env, user, PaiIdx()[j]) && env.paiFails(PaiIdx()[j], user)
  }

  /** Reading a physical counter can fail, counting the supported ones cannot. */
  predicate ReadFails(env: Env, i: nat) {
    i < ALL_COUNTER && env.readFails(i)
  }

  /** The command fails on counter i. */
  predicate Fails(env: Env, cmd: Cmd, i: nat)
    requires i < |env.states|
  {
    var st := env.states[i];
    match cmd
    case Print => st == ENABLED && ReadFails(env, i)
    case Reset => st == ENABLED && (env.resetFails(i) || ReadFails(env, i))
    case Enable => (st == DISABLED && env.enableFails(i)) || (st != UNSUPPORTED && st != UNAUTHORIZED && ReadFails(env, i))
    case Disable => st == ENABLED && env.disableFails(i)
  }

  /** The state of counter i once the command has been carried out on it. */
  function StateAfter(env: Env, cmd: Cmd, i: nat): int
    requires i < |env.states|
  {
    var st := env.states[i];
    match cmd
    case Print => st
    case Reset => st
    case Enable => if st == DISABLED then ENABLED else st
    case Disable => if st == ENABLED then DISABLED else st
  }

  ghost function ReadValue(env: Env, i: nat): nat
    requires EnvOk(env)
  {
    if i == PAI_USER then Announcement(env, true) else if i == PAI_KERNEL then Announcement(env, false) else env.value(i)
  }

  /** The value sent with counter i; without a reading it is whatever was read before. */
  ghost function ValueAfter(env: Env, cmd: Cmd, i: nat, before: nat): nat
    requires EnvOk(env) && i < NUM_COUNTER
  {
    if cmd == Disable then 0
    else if StateAfter(env, cmd, i) == ENABLED || (cmd == Enable && env.states[i] != UNSUPPORTED && env.states[i] != UNAUTHORIZED)
    then ReadValue(env, i) else before
  }

  /** The details behind the message about counter i. */
  ghost function Behind(env: Env, cmd: Cmd, i: nat): seq<Sent>
    requires EnvOk(env) && i < NUM_COUNTER
  {
    if cmd != Disable && i >= PAI_USER && StateAfter(env, cmd, i) == ENABLED then Details(env, i == PAI_USER, 0) else []
  }

  ghost predicate BehindFails(env: Env, cmd: Cmd, i: nat)
    requires EnvOk(env) && i < NUM_COUNTER
  {
    cmd != Disable && i >= PAI_USER && StateAfter(env, cmd, i) == ENABLED && DetailsFail(env, i == PAI_USER, 0)
  }

  predicate Chosen(ctr: nat, i: nat) {
    i != ALL_COUNTER && (i == ctr || ctr == ALL_COUNTER)
  }

  /** All messages from counter i on; value is the last one read, bad says that the last details failed. */
  ghost function Answers(env: Env, cmd: Cmd, ctr: nat, i: nat, value: nat, bad: bool): seq<Sent>
    requires EnvOk(env) && i <= NUM_COUNTER
    decreases NUM_COUNTER - i
  {
    if i == NUM_COUNTER then (if bad then [] else [Sent(Answer(HOTPLUG_DETECTED, 0, env.hotplug), Hotplug)])
    else if !Chosen(ctr, i) then Answers(env, cmd, ctr, i + 1, value, bad)
    else if Fails(env, cmd, i) then [Sent(Answer(i, -1, 0), Head(i))]
    else
      var v := ValueAfter(env, cmd, i, value);
      [Sent(Answer(i, StateAfter(env, cmd, i), v), Head(i))] + Behind(env, cmd, i)
        + Answers(env, cmd, ctr, i + 1, v, if i >= PAI_USER then BehindFails(env, cmd, i) else bad)
  }

  // ------------------------------------------------------------------
  // What the client takes
  // ------------------------------------------------------------------

  function Wire(s: seq<Sent>): (w: seq<Answer>)
    ensures |w| == |s| && forall i :: 0 <= i < |s| ==> w[i] == s[i].msg
  {
    seq(|s|, i requires 0 <= i < |s| => s[i].msg)
  }

  function Roles(s: seq<Sent>): (w: seq<Role>)
    ensures |w| == |s| && forall i :: 0 <= i < |s| ==> w[i] == s[i].role
  {
    seq(|s|, i requires 0 <= i < |s| => s[i].role)
  }

  /** Number of messages the client takes as details when n were announced; an error is the last one. */
  function TakeDetails(w: seq<Answer>, n: nat): (k: nat)
    ensures k <= |w| && k <= n
  {
    if n == 0 || w == [] then 0 else if w[0].state < 0 then 1 else 1 + TakeDetails(w[1..], n - 1)
  }

  /** Number of counters that exist for user space. */
  ghost function UserCounters(env: Env): nat
    requires EnvOk(env)
  {
    Count((c: nat) => c < MAX_NUM_PAI && env.kinds[c] == KernelAndUser, Range(0, MAX_NUM_PAI))
  }

  /** The most details the client accepts. */
  ghost function MaxDetails(env: Env, user: bool): nat
    requires EnvOk(env)
  {
    if user then UserCounters(env) else MAX_NUM_PAI
  }

  /** How the client ends: what it took each message for, whether it got all it expected, and what it left unread. */
  datatype Seen = Seen(roles: seq<Role>, done: bool, left: seq<Answer>)

  function RoleOf(m: Answer): Role {
    if m.ctr == HOTPLUG_DETECTED then Hotplug else Head(m.ctr)
  }

  /** The client, when n more messages that are not details are expected. */
  ghost function Client(env: Env, w: seq<Answer>, n: nat): Seen
    requires EnvOk(env)
  {
    if n == 0 then Seen([], true, w)
    else if w == [] then Seen([], false, [])
    else
      var m := w[0];
      if m.state < 0 then Seen([RoleOf(m)], false, w[1..])
      else if (m.ctr == PAI_USER || m.ctr == PAI_KERNEL) && m.state == ENABLED then
        if m.value > MaxDetails(env, m.ctr == PAI_USER) then Seen([RoleOf(m)], false, w[1..])
        else
          var k := TakeDetails(w[1..], m.value);
          var rest := Client(env, w[1 + k..], n - 1);
          Seen([RoleOf(m)] + seq(k, _ => Detail(m.ctr)) + rest.roles, rest.done, rest.left)
      else
        var rest := Client(env, w[1..], n - 1);
        Seen([RoleOf(m)] + rest.roles, rest.done, rest.left)
  }

  /** Number of chosen counters from i on, and one for the hotplug state. */
  function Expected(ctr: nat, i: nat): nat
    requires i <= NUM_COUNTER
    decreases NUM_COUNTER - i
  {
    if i == NUM_COUNTER then 1 else Expected(ctr, i + 1) + if Chosen(ctr, i) then 1 else 0
  }

  // ------------------------------------------------------------------
  // Agreement
  // ------------------------------------------------------------------

  lemma CountFront(P: nat -> bool, s: seq<nat>, k: nat)
    requires k < |s|
    ensures Count(P, s[k..]) == (if P(s[k]) then 1 else 0) + Count(P, s[k + 1..])
  {
    assert s[k..] == [s[k]] + s[k + 1..];
    CountConcat(P, [s[k]], s[k + 1..]);
    var one := [s[k]];
    assert one[..0] == [];
    assert Count(P, one) == Count(P, one[..0]) + if P(s[k]) then 1 else 0;
  }

  lemma FailsLater(env: Env, user: bool, k: nat)
    requires EnvOk(env) && k < MAX_NUM_PAI
    ensures DetailsFail(env, user, k) <==>
      (Selected(env, user, PaiIdx()[k]) && env.paiFails(PaiIdx()[k], user)) || DetailsFail(env, user, k + 1)
  {
  }

  /** Number of details: all that are to be sent, or fewer when one of them fails. */
  lemma {:induction false} DetailCount(env: Env, user: bool, k: nat)
    requires EnvOk(env) && k <= MAX_NUM_PAI
    ensures |Details(env, user, k)| <= Count(SentOf(env, user), PaiIdx()[k..])
    ensures !DetailsFail(env, user, k) ==> |Details(env, user, k)| == Count(SentOf(env, user), PaiIdx()[k..])
    decreases MAX_NUM_PAI - k
  {
    if k < MAX_NUM_PAI {
      CountFront(SentOf(env, user), PaiIdx(), k);
      FailsLater(env, user, k);
      DetailCount(env, user, k + 1);
    }
  }

  lemma WireStep(d: seq<Sent>, rest: seq<Answer>)
    requires d != []
    ensures (Wire(d) + rest)[0] == d[0].msg && (Wire(d) + rest)[1..] == Wire(d[1..]) + rest
  {
    assert (Wire(d) + rest)[1..] == Wire(d[1..]) + rest;
  }

  /** The client takes all details: up to the error if there is one, else as many as announced. */
  lemma {:induction false} DetailsTaken(env: Env, user: bool, k: nat, rest: seq<Answer>, n: nat)
    requires EnvOk(env) && k <= MAX_NUM_PAI && n >= |Details(env, user, k)|
    requires !DetailsFail(env, user, k) ==> n == |Details(env, user, k)|
    ensures TakeDetails(Wire(Details(env, user, k)) + rest, n) == |Details(env, user, k)|
    decreases MAX_NUM_PAI - k
  {
    hide PaiIdx, Selected, DetailsFail, Wire;
    if k < MAX_NUM_PAI {
      FailsLater(env, user, k);
      var d, c := Details(env, user, k), PaiIdx()[k];
      if !Selected(env, user, c) {
        DetailsTaken(env, user, k + 1, rest, n);
      } else if !env.paiFails(c, user) {
        var tail := Details(env, user, k + 1);
        DetailsTaken(env, user, k + 1, rest, n - 1);
        assert d[1..] == tail;
        WireStep(d, rest);
      } else {
        WireStep(d, rest);
      }
    } else {
      NoneLeft(env, user);
    }
  }

  lemma NoneLeft(env: Env, user: bool)
    requires EnvOk(env)
    ensures !DetailsFail(env, user, MAX_NUM_PAI)
  {
  }

  lemma {:induction false} DetailRoles(env: Env, user: bool, k: nat, j: nat)
    requires EnvOk(env) && k <= MAX_NUM_PAI && j < |Details(env, user, k)|
    ensures Details(env, user, k)[j].role == Detail(Virtual(user))
    decreases MAX_NUM_PAI - k
  {
    var c := PaiIdx()[k];
    if !Selected(env, user, c) {
      DetailRoles(env, user, k + 1, j);
    } else if j > 0 && !env.paiFails(c, user) {
      DetailRoles(env, user, k + 1, j - 1);
    }
  }

  /** The session ends well: no command fails, and the details sent last are complete. */
  ghost predicate Completes(env: Env, cmd: Cmd, ctr: nat, i: nat, bad: bool)
    requires EnvOk(env) && i <= NUM_COUNTER
    decreases NUM_COUNTER - i
  {
    if i == NUM_COUNTER then !bad
    else if !Chosen(ctr, i) then Completes(env, cmd, ctr, i + 1, bad)
    else !Fails(env, cmd, i) && Completes(env, cmd, ctr, i + 1, if i >= PAI_USER then BehindFails(env, cmd, i) else bad)
  }

  /** The client takes the details of a virtual counter for what they are and goes on behind them. */
  lemma DetailsGroup(env: Env, user: bool, later: seq<Answer>, n: nat)
    requires EnvOk(env) && NoneSuppressed(env) && n > 0
    ensures
      var head, behind := Sent(Answer(Virtual(user), ENABLED, Announcement(env, user)), Head(Virtual(user))), Details(env, user, 0);
      var rest := Client(env, later, n - 1);
      Client(env, Wire([head] + behind) + later, n) == Seen(Roles([head] + behind) + rest.roles, rest.done, rest.left)
  {
    hide Details, Announcement, Count, DetailsFail, NoneSuppressed, UserCounters, PaiIdx, TakeDetails;
    var i := Virtual(user);
    var head, behind := Sent(Answer(i, ENABLED, Announcement(env, user)), Head(i)), Details(env, user, 0);
    var w := Wire([head] + behind) + later;
    CountsAgree(env, user);
    UserBound(env);
    assert PaiIdx()[0..] == PaiIdx();
    DetailCount(env, user, 0);
    DetailsTaken(env, user, 0, later, Announcement(env, user));
    DetailsRoles(env, user);
    WireStep([head] + behind, later);
    assert ([head] + behind)[1..] == behind;
    WireConcat([head], behind);
    assert Roles([head]) == [Head(i)];
    assert w[1 + |behind|..] == later;
  }

  lemma DetailsRoles(env: Env, user: bool)
    requires EnvOk(env)
    ensures seq(|Details(env, user, 0)|, _ => Detail(Virtual(user))) == Roles(Details(env, user, 0))
  {
    var behind := Details(env, user, 0);
    var roles := seq(|behind|, _ => Detail(Virtual(user)));
    forall j | 0 <= j < |behind| ensures roles[j] == Roles(behind)[j] {
      DetailRoles(env, user, 0, j);
    }
  }

  /** The client takes the messages about counter i for what they are and goes on behind them. */
  lemma GroupTaken(env: Env, cmd: Cmd, i: nat, before: nat, later: seq<Answer>, n: nat)
    requires EnvOk(env) && NoneSuppressed(env) && i < NUM_COUNTER && i != ALL_COUNTER && n > 0
    ensures
      var head, behind := Sent(Answer(i, StateAfter(env, cmd, i), ValueAfter(env, cmd, i, before)), Head(i)), Behind(env, cmd, i);
      var rest := Client(env, later, n - 1);
      Client(env, Wire([head] + behind) + later, n) == Seen(Roles([head] + behind) + rest.roles, rest.done, rest.left)
  {
    hide Details, Announcement, NoneSuppressed;
    var head, behind := Sent(Answer(i, StateAfter(env, cmd, i), ValueAfter(env, cmd, i, before)), Head(i)), Behind(env, cmd, i);
    var w := Wire([head] + behind) + later;
    if i >= PAI_USER && StateAfter(env, cmd, i) == ENABLED {
      DetailsGroup(env, i == PAI_USER, later, n);
    } else {
      assert behind == [];
      assert w[0] == head.msg && w[1..] == later;
      assert Roles([head] + behind) == [Head(i)];
    }
  }

  lemma WireConcat(a: seq<Sent>, b: seq<Sent>)
    ensures Wire(a + b) == Wire(a) + Wire(b) && Roles(a + b) == Roles(a) + Roles(b)
  {
    assert Wire(a + b) == Wire(a) + Wire(b);
    assert Roles(a + b) == Roles(a) + Roles(b);
  }

  /**
    Both sides agree from counter i on: the client takes every message for
    what the daemon meant it to be, leaves nothing unread, and gets all it
    expects exactly when the session completes.
  */
  lemma {:induction false} AgreeFrom(env: Env, cmd: Cmd, ctr: nat, i: nat, value: nat, bad: bool)
    requires EnvOk(env) && NoneSuppressed(env) && i <= NUM_COUNTER
    ensures
      var d := Answers(env, cmd, ctr, i, value, bad);
      Client(env, Wire(d), Expected(ctr, i)) == Seen(Roles(d), Completes(env, cmd, ctr, i, bad), [])
    decreases NUM_COUNTER - i
  {
    hide Client, Behind, BehindFails, ValueAfter, StateAfter, NoneSuppressed, Fails, Wire, Roles;
    if i == NUM_COUNTER {
      LastTaken(env, bad);
    } else if !Chosen(ctr, i) {
      AgreeFrom(env, cmd, ctr, i + 1, value, bad);
    } else if Fails(env, cmd, i) {
      ErrorTaken(env, i, Expected(ctr, i));
    } else {
      var v := ValueAfter(env, cmd, i, value);
      var failed := if i >= PAI_USER then BehindFails(env, cmd, i) else bad;
      var group := [Sent(Answer(i, StateAfter(env, cmd, i), v), Head(i))] + Behind(env, cmd, i);
      var later := Answers(env, cmd, ctr, i + 1, v, failed);
      AgreeFrom(env, cmd, ctr, i + 1, v, failed);
      GroupTaken(env, cmd, i, value, Wire(later), Expected(ctr, i));
      WireConcat(group, later);
    }
  }

  /** Behind the last counter the client expects the hotplug state; without it, the connection ends. */
  lemma LastTaken(env: Env, bad: bool)
    requires EnvOk(env)
    ensures
      var d := if bad then [] else [Sent(Answer(HOTPLUG_DETECTED, 0, env.hotplug), Hotplug)];
      Client(env, Wire(d), 1) == Seen(Roles(d), !bad, [])
  {
    var d := if bad then [] else [Sent(Answer(HOTPLUG_DETECTED, 0, env.hotplug), Hotplug)];
    assert Roles(d) == if bad then [] else [Hotplug];
    assert !bad ==> Wire(d)[1..] == [];
  }

  /** A counter on which the command failed ends the session on both sides. */
  lemma ErrorTaken(env: Env, i: nat, n: nat)
    requires EnvOk(env) && n > 0 && i < NUM_COUNTER
    ensures
      var d := [Sent(Answer(i, -1, 0), Head(i))];
      Client(env, Wire(d), n) == Seen(Roles(d), false, [])
  {
    var d := [Sent(Answer(i, -1, 0), Head(i))];
    assert Roles(d) == [Head(i)] && Wire(d)[1..] == [];
  }

  lemma UserBound(env: Env)
    requires EnvOk(env)
    ensures Announcement(env, true) <= UserCounters(env)
  {
    CountLess(AnnouncedOf(env, true), (c: nat) => c < MAX_NUM_PAI && env.kinds[c] == KernelAndUser, Range(0, MAX_NUM_PAI));
  }

  /** Number of messages the client expects besides details. */
  function NumAnswers(ctr: nat): nat {
    if ctr == ALL_COUNTER then NUM_COUNTER - 1 + 1 else 1 + 1
  }

  lemma ExpectedIs(ctr: nat)
    requires ctr < NUM_COUNTER
    ensures Expected(ctr, 0) == NumAnswers(ctr)
  {
    ExpectedFrom(ctr, 0);
  }

  lemma {:induction false} ExpectedFrom(ctr: nat, i: nat)
    requires ctr < NUM_COUNTER && i <= NUM_COUNTER
    ensures Expected(ctr, i) == 1 + if ctr != ALL_COUNTER then (if i <= ctr then 1 else 0)
                                    else if i <= ALL_COUNTER then NUM_COUNTER - 1 - i else NUM_COUNTER - i
    decreases NUM_COUNTER - i
  {
    if i < NUM_COUNTER { ExpectedFrom(ctr, i + 1); }
  }

  /**
    For every command, counter choice, counter states, supported counters and
    behaviour of the kernel: the client takes each message in the role in which
    it was sent and leaves nothing unread, and it gets all the answers it
    expects exactly when the command fails on no chosen counter and, unless
    counters are disabled, all details of the last virtual counter chosen
    could be read.
  */
  lemma SessionAgreement(env: Env, cmd: Cmd, ctr: nat)
    requires EnvOk(env) && NoneSuppressed(env) && ctr < NUM_COUNTER
    ensures
      var d := Answers(env, cmd, ctr, 0, 0, false);
      var seen := Client(env, Wire(d), NumAnswers(ctr));
      && seen.roles == Roles(d) && seen.left == []
      && (seen.done <==>
            && (forall i :: 0 <= i < NUM_COUNTER && Chosen(ctr, i) ==> !Fails(env, cmd, i))
            && (ctr >= ALL_COUNTER ==> !BehindFails(env, cmd, if ctr == PAI_USER then PAI_USER else PAI_KERNEL)))
  {
    AgreeFrom(env, cmd, ctr, 0, 0, false);
    ExpectedIs(ctr);
    CompletesFrom(env, cmd, ctr, 0, false);
  }

  lemma {:induction false} CompletesFrom(env: Env, cmd: Cmd, ctr: nat, i: nat, bad: bool)
    requires EnvOk(env) && ctr < NUM_COUNTER && i <= NUM_COUNTER
    ensures Completes(env, cmd, ctr, i, bad) <==>
      && (forall j :: i <= j < NUM_COUNTER && Chosen(ctr, j) ==> !Fails(env, cmd, j))
      && (if i <= (if ctr == PAI_USER then PAI_USER else PAI_KERNEL) && ctr >= ALL_COUNTER
          then !BehindFails(env, cmd, if ctr == PAI_USER then PAI_USER else PAI_KERNEL) else !bad)
    decreases NUM_COUNTER - i
  {
    hide Fails, BehindFails;
    if i < NUM_COUNTER {
      CompletesFrom(env, cmd, ctr, i + 1, if Chosen(ctr, i) && i >= PAI_USER then BehindFails(env, cmd, i) else bad);
    }
  }

  /**
    The announcement for kernel space counts suppressed counters too, which
    are not sent.  So when nothing fails, the client gets all its answers about
    an enabled kernel counter exactly when no supported counter is suppressed.
  */
  lemma SuppressedConfuses(env: Env)
    requires EnvOk(env) && env.states[PAI_KERNEL] == ENABLED && !DetailsFail(env, false, 0)
    ensures
      var d := Answers(env, Print, PAI_KERNEL, 0, 0, false);
      Client(env, Wire(d), NumAnswers(PAI_KERNEL)).done <==> NoneSuppressed(env)
  {
    if NoneSuppressed(env) {
      SessionAgreement(env, Print, PAI_KERNEL);
    } else {
      OneGroup(env);
    }
  }

  /** With a suppressed counter, the hotplug state is taken for a detail and then missed. */
  lemma OneGroup(env: Env)
    requires EnvOk(env) && env.states[PAI_KERNEL] == ENABLED && !DetailsFail(env, false, 0) && !NoneSuppressed(env)
    ensures !Client(env, Wire(Answers(env, Print, PAI_KERNEL, 0, 0, false)), NumAnswers(PAI_KERNEL)).done
  {
    var hot := Sent(Answer(HOTPLUG_DETECTED, 0, env.hotplug), Hotplug);
    var head, behind := Sent(Answer(PAI_KERNEL, ENABLED, Announcement(env, false)), Head(PAI_KERNEL)), Details(env, false, 0);
    OneGroupText(env);
    CountsAgree(env, false);
    assert PaiIdx()[0..] == PaiIdx();
    DetailCount(env, false, 0);
    AllTaken(env, 0, [hot.msg], Announcement(env, false));
    hide Details, Announcement, Count, DetailsFail, NoneSuppressed, UserCounters, PaiIdx, TakeDetails, Answers;
    var w := Wire([head] + behind + [hot]);
    assert w[0] == head.msg && w[1..] == Wire(behind) + [hot.msg];
    assert w[1 + |behind| + 1..] == [];
  }

  lemma OneGroupText(env: Env)
    requires EnvOk(env) && env.states[PAI_KERNEL] == ENABLED && !DetailsFail(env, false, 0)
    ensures Answers(env, Print, PAI_KERNEL, 0, 0, false)
         == [Sent(Answer(PAI_KERNEL, ENABLED, Announcement(env, false)), Head(PAI_KERNEL))] + Details(env, false, 0)
            + [Sent(Answer(HOTPLUG_DETECTED, 0, env.hotplug), Hotplug)]
  {
    SkipTo(env, Print, PAI_KERNEL, 0);
  }

  lemma {:induction false} SkipTo(env: Env, cmd: Cmd, ctr: nat, i: nat)
    requires EnvOk(env) && i <= ctr < NUM_COUNTER && ctr != ALL_COUNTER
    ensures Answers(env, cmd, ctr, i, 0, false) == Answers(env, cmd, ctr, ctr, 0, false)
    decreases ctr - i
  {
    if i < ctr { SkipTo(env, cmd, ctr, i + 1); }
  }

  /** Announced more than sent, and no error: the client takes everything it can get. */
  lemma {:induction false} AllTaken(env: Env, k: nat, rest: seq<Answer>, n: nat)
    requires EnvOk(env) && k <= MAX_NUM_PAI && !DetailsFail(env, false, k) && n > |Details(env, false, k)|
    requires |rest| == 1 && rest[0].state >= 0
    ensures TakeDetails(Wire(Details(env, false, k)) + rest, n) == |Details(env, false, k)| + 1
    decreases MAX_NUM_PAI - k
  {
    hide PaiIdx, Selected, DetailsFail, Wire;
    if k < MAX_NUM_PAI {
      FailsLater(env, false, k);
      var d, c := Details(env, false, k), PaiIdx()[k];
      if !Selected(env, false, c) {
        AllTaken(env, k + 1, rest, n);
      } else {
        AllTaken(env, k + 1, rest, n - 1);
        assert d[1..] == Details(env, false, k + 1);
        WireStep(d, rest);
      }
    } else {
      assert Wire([]) + rest == rest;
    }
  }
}
