/**
 * The session manager of smppusersmanager.cpp as atomic steps between the points where m_mutex is taken and released.
 * A command is handled by a task of its own; the callbacks run with the mutex released, except for network errors.
 */
module Sessions {
  import opened Sequences
  import opened Bytes
  import opened Addresses

  const ESME_ROK := 0x00
  const ESME_RINVCMDID := 0x03
  const ESME_RINVBNDSTS := 0x04
  const ESME_RALYBND := 0x05
  const ESME_RSYSERR := 0x08
  const ESME_RINVSRCADR := 0x0A
  const ESME_RINVDSTADR := 0x0B
  const ESME_RBINDFAIL := 0x0D
  const ESME_RINVPASWD := 0x0E
  const ESME_RINVSYSID := 0x0F
  const ESME_RTHROTTLED := 0x58

  datatype Mode = Receiver | Transmitter | Transceiver

  datatype Command =
    | Bind(mode: Mode, systemId: seq<byte>, password: seq<byte>, range: seq<byte>)
    | Unbind
    | SubmitSm(from: seq<byte>, to: seq<byte>, text: seq<byte>)
    | EnquireLink
    | Other

  datatype LoginResult = LoginOk | LoginFail | LoginInvalidPwd | LoginInvalidUsr | LoginInvalidAddr | LoginInvalidCmd

  datatype DeliveryResult =
    | DeliveryOk | DeliveryUnknownError | DeliveryRejected | DeliveryInvSrcAddr | DeliveryInvDestAddr

  datatype Reason = ByUnbind | ByNetError | ByKeepAlive

  datatype User = User(systemId: seq<byte>, mode: Mode, addresses: seq<Address>)

  /** Where the handling of a command is. The mutex is free in each of them. */
  datatype Phase =
    | Validating(user: User)
    | Leaving(user: User)
    | Submitting(user: User)
    | Delivering(user: User)
    | Replying(status: nat, keep: bool)
    | Done(status: nat, keep: bool)

  datatype Task = Task(conn: int, seqNo: nat, cmd: Command, phase: Phase)

  /** What the manager does to its table and to the outside, in order. */
  datatype Event =
    | Inserted(conn: int, user: User)
    | Removed(conn: int, reason: Reason)
    | Disconnected(conn: int, systemId: seq<byte>, reason: Reason)
    | Delivered(conn: int, user: User, from: seq<byte>, to: seq<byte>, text: seq<byte>)
    | Responded(t: nat, conn: int, seqNo: nat, status: nat)

  /** clients is m_clients; due holds the users that the keep-alive thread has collected and not yet asked. */
  datatype Manager = Manager(clients: map<int, User>, tasks: map<nat, Task>, due: set<int>, log: seq<Event>)

  datatype Step =
    | NetworkError(conn: int)
    | Command(t: nat, conn: int, seqNo: nat, cmd: Command)
    | Validated(t: nat, res: LoginResult)
    | Notified(t: nat)
    | Checked(t: nat)
    | DeliveryReturns(t: nat, result: DeliveryResult)
    | Reply(t: nat)
    | Collect
    | Alive(conn: int)
    | Kick(conn: int)

  // The decisions

  /** The user that a bind asks for, unless its addresses are refused. */
  function UserOf(mode: Mode, systemId: seq<byte>, range: seq<byte>): Option<User> {
    if mode == Transmitter then Some(User(systemId, mode, []))
    else
      match ParseAddresses(range)
      case None => None
      case Some(addresses) => Some(User(systemId, mode, addresses))
  }

  /** INVALIDCMD falls through to the default. */
  function BindStatus(res: LoginResult): nat {
    match res
    case LoginOk => ESME_ROK
    case LoginInvalidPwd => ESME_RINVPASWD
    case LoginInvalidUsr => ESME_RINVSYSID
    case _ => ESME_RBINDFAIL
  }

  function DeliveryStatus(res: DeliveryResult): nat {
    match res
    case DeliveryOk => ESME_ROK
    case DeliveryRejected => ESME_RTHROTTLED
    case DeliveryInvSrcAddr => ESME_RINVSRCADR
    case DeliveryInvDestAddr => ESME_RINVDSTADR
    case DeliveryUnknownError => ESME_RSYSERR
  }

  /** The status a submission is refused with, or ESME_ROK when it goes to DeliverMessage. */
  function SubmitStatus(user: User, from: seq<byte>, to: seq<byte>): nat {
    if user.mode == Receiver then ESME_RINVCMDID
    else if user.mode == Transmitter then ESME_ROK
    else if !Owns(user.addresses, from) then ESME_RINVSRCADR
    else if Owns(user.addresses, to) then ESME_RINVDSTADR
    else ESME_ROK
  }

  /** The first stretch of OnCommand: where the task goes. */
  function Received(clients: map<int, User>, conn: int, cmd: Command): Phase {
    if conn !in clients then
      match cmd
      case Bind(mode, systemId, _, range) =>
        (match UserOf(mode, systemId, range)
         case None => Replying(ESME_RINVCMDID, false)
         case Some(user) => Validating(user))
      case _ => Replying(ESME_RINVBNDSTS, false)
    else
      match cmd
      case Bind(_, _, _, _) => Replying(ESME_RALYBND, true)
      case Unbind => Leaving(clients[conn])
      case SubmitSm(_, _, _) => Submitting(clients[conn])
      case EnquireLink => Replying(ESME_ROK, true)
      case Other => Replying(ESME_RINVCMDID, true)
  }

  // The steps

  ghost predicate Enabled(s: Manager, st: Step) {
    match st
    case NetworkError(_) => true
    case Command(t, _, _, _) => t !in s.tasks
    case Validated(t, _) => t in s.tasks && s.tasks[t].phase.Validating?
    case Notified(t) => t in s.tasks && s.tasks[t].phase.Leaving?
    case Checked(t) => t in s.tasks && s.tasks[t].phase.Submitting? && s.tasks[t].cmd.SubmitSm?
    case DeliveryReturns(t, _) => t in s.tasks && s.tasks[t].phase.Delivering?
    case Reply(t) => t in s.tasks && s.tasks[t].phase.Replying?
    case Collect => s.due == {}
    case Alive(conn) => conn in s.due
    case Kick(conn) => conn in s.due
  }

  function SetPhase(s: Manager, t: nat, p: Phase): Manager
    requires t in s.tasks
  {
    s.(tasks := s.tasks[t := s.tasks[t].(phase := p)])
  }

  function Logged(s: Manager, events: seq<Event>): Manager {
    s.(log := s.log + events)
  }

  function ApplyNetworkError(s: Manager, conn: int): Manager {
    if conn in s.clients then
      Logged(s.(clients := s.clients - {conn}),
             [Disconnected(conn, s.clients[conn].systemId, ByNetError), Removed(conn, ByNetError)])
    else s
  }

  function ApplyCommand(s: Manager, t: nat, conn: int, seqNo: nat, cmd: Command): Manager {
    var phase := Received(s.clients, conn, cmd);
    var s1 := s.(tasks := s.tasks[t := Task(conn, seqNo, cmd, phase)]);
    if phase.Leaving? then Logged(s1.(clients := s.clients - {conn}), [Removed(conn, ByUnbind)]) else s1
  }

  /** insert keeps the user that is already there. */
  function ApplyValidated(s: Manager, t: nat, res: LoginResult): Manager
    requires t in s.tasks && s.tasks[t].phase.Validating?
  {
    var task := s.tasks[t];
    var s1 := SetPhase(s, t, Replying(BindStatus(res), res == LoginOk));
    if res == LoginOk && task.conn !in s.clients then
      Logged(s1.(clients := s.clients[task.conn := task.phase.user]), [Inserted(task.conn, task.phase.user)])
    else s1
  }

  function ApplyNotified(s: Manager, t: nat): Manager
    requires t in s.tasks && s.tasks[t].phase.Leaving?
  {
    var task := s.tasks[t];
    Logged(SetPhase(s, t, Replying(ESME_ROK, false)), [Disconnected(task.conn, task.phase.user.systemId, ByUnbind)])
  }

  function ApplyChecked(s: Manager, t: nat): Manager
    requires t in s.tasks && s.tasks[t].phase.Submitting? && s.tasks[t].cmd.SubmitSm?
  {
    var task := s.tasks[t];
    var user, m := task.phase.user, task.cmd;
    var status := SubmitStatus(user, m.from, m.to);
    if status != ESME_ROK then SetPhase(s, t, Replying(status, true))
    else Logged(SetPhase(s, t, Delivering(user)), [Delivered(task.conn, user, m.from, m.to, m.text)])
  }

  function ApplyReply(s: Manager, t: nat): Manager
    requires t in s.tasks && s.tasks[t].phase.Replying?
  {
    var task := s.tasks[t];
    Logged(SetPhase(s, t, Done(task.phase.status, task.phase.keep)),
           [Responded(t, task.conn, task.seqNo, task.phase.status)])
  }

  /** erase of a connection that has gone already does nothing. */
  function ApplyKick(s: Manager, conn: int): Manager {
    var s1 := s.(due := s.due - {conn});
    if conn in s.clients then Logged(s1.(clients := s.clients - {conn}), [Removed(conn, ByKeepAlive)]) else s1
  }

  ghost function Apply(s: Manager, st: Step): Manager
    requires Enabled(s, st)
  {
    match st
    case NetworkError(conn) => ApplyNetworkError(s, conn)
    case Command(t, conn, seqNo, cmd) => ApplyCommand(s, t, conn, seqNo, cmd)
    case Validated(t, res) => ApplyValidated(s, t, res)
    case Notified(t) => ApplyNotified(s, t)
    case Checked(t) => ApplyChecked(s, t)
    case DeliveryReturns(t, res) => SetPhase(s, t, Replying(DeliveryStatus(res), true))
    case Reply(t) => ApplyReply(s, t)
    case Collect => s.(due := s.clients.Keys)
    case Alive(conn) => s.(due := s.due - {conn})
    case Kick(conn) => ApplyKick(s, conn)
  }

  ghost predicate Next(s: Manager, st: Step, s': Manager) {
    Enabled(s, st) && s' == Apply(s, st)
  }

  // Runs

  const STARTED := Manager(map[], map[], {}, [])

  datatype Trace = Trace(states: seq<Manager>, steps: seq<Step>)

  ghost predicate Run(t: Trace) {
    && |t.states| == |t.steps| + 1
    && t.states[0] == STARTED
    && forall k | 0 <= k < |t.steps| :: Next(t.states[k], t.steps[k], t.states[k + 1])
  }

  /** Transmitters have no addresses, the others have one or more. */
  predicate UserOk(user: User) {
    user.mode == Transmitter <==> user.addresses == []
  }

  predicate TaskOk(task: Task) {
    match task.phase
    case Validating(user) =>
      && task.cmd.Bind? && UserOk(user)
      && UserOf(task.cmd.mode, task.cmd.systemId, task.cmd.range) == Some(user)
    case Leaving(_) => task.cmd.Unbind?
    case Submitting(user) => task.cmd.SubmitSm? && UserOk(user)
    case Delivering(user) => task.cmd.SubmitSm? && SubmitStatus(user, task.cmd.from, task.cmd.to) == ESME_ROK
    case _ => true
  }

  ghost predicate Inv(s: Manager) {
    && (forall c | c in s.clients :: UserOk(s.clients[c]))
    && (forall t | t in s.tasks :: TaskOk(s.tasks[t]))
  }

  lemma {:induction false} ParsedNotEmpty(pieces: seq<seq<byte>>)
    ensures var r := ParsePieces(pieces); r.Some? ==> |r.value| == |pieces|
  {
    if pieces != [] { ParsedNotEmpty(pieces[1..]); }
  }

  lemma UserOfOk(mode: Mode, systemId: seq<byte>, range: seq<byte>)
    ensures var r := UserOf(mode, systemId, range); r.Some? ==> UserOk(r.value) && r.value.mode == mode
  {
    ParsedNotEmpty(Split(range, BAR));
  }

  lemma StepKeeps(s: Manager, st: Step, s': Manager)
    requires Inv(s) && Next(s, st, s')
    ensures Inv(s')
  {
    match st
    case Command(t, conn, seqNo, cmd) =>
      if cmd.Bind? { UserOfOk(cmd.mode, cmd.systemId, cmd.range); }
    case Validated(t, res) => assert TaskOk(s.tasks[t]);
    case Checked(t) => assert TaskOk(s.tasks[t]);
    case _ =>
  }

  lemma {:induction false} RunKeeps(t: Trace, k: nat)
    requires Run(t) && k <= |t.steps|
    ensures Inv(t.states[k])
  {
    if k > 0 {
      RunKeeps(t, k - 1);
      assert Next(t.states[k - 1], t.steps[k - 1], t.states[k]);
      StepKeeps(t.states[k - 1], t.steps[k - 1], t.states[k]);
    }
  }

  // Where tasks and users come from

  /** Step a brought the command of the task. */
  ghost predicate AskedAt(t: Trace, a: nat, x: nat, task: Task) {
    && a < |t.steps| && a < |t.states|
    && t.steps[a] == Command(x, task.conn, task.seqNo, task.cmd)
    && (match task.phase
        case Validating(user) => task.conn !in t.states[a].clients
        case Leaving(user) => task.conn in t.states[a].clients && t.states[a].clients[task.conn] == user
        case Submitting(user) => task.conn in t.states[a].clients && t.states[a].clients[task.conn] == user
        case Delivering(user) => task.conn in t.states[a].clients && t.states[a].clients[task.conn] == user
        case _ => true)
  }

  /** What a step does to a task: nothing, create it, or move its phase on. */
  lemma TaskStep(s: Manager, st: Step, s': Manager, x: nat)
    requires Next(s, st, s') && x in s'.tasks
    ensures
      var task := s'.tasks[x];
      if x in s.tasks then
        var was := s.tasks[x];
        && task.conn == was.conn && task.seqNo == was.seqNo && task.cmd == was.cmd
        && (task.phase == was.phase || task.phase.Replying? || task.phase.Done?
            || (was.phase.Submitting? && task.phase == Delivering(was.phase.user)))
      else st == Command(x, task.conn, task.seqNo, task.cmd)
           && task.phase == Received(s.clients, task.conn, task.cmd)
  {
  }

  /** Every task was brought by one command, which found the table as the task's phase says. */
  lemma {:induction false} TaskOrigin(t: Trace, k: nat, x: nat)
    requires Run(t) && k <= |t.steps| && x in t.states[k].tasks
    ensures exists a: nat :: a < k && AskedAt(t, a, x, t.states[k].tasks[x])
  {
    if k > 0 {
      var s, st, s' := t.states[k - 1], t.steps[k - 1], t.states[k];
      assert Next(s, st, s');
      TaskStep(s, st, s', x);
      if x in s.tasks {
        TaskOrigin(t, k - 1, x);
        var a: nat :| a < k - 1 && AskedAt(t, a, x, s.tasks[x]);
        assert AskedAt(t, a, x, s'.tasks[x]);
      } else {
        assert AskedAt(t, k - 1, x, s'.tasks[x]);
      }
    }
  }

  /** At step m ValidateUser returned OK for a bind on the connection, whose user it is. */
  ghost predicate AdmittedAt(t: Trace, m: nat, c: int, user: User) {
    && m < |t.steps| && m < |t.states|
    && t.steps[m].Validated? && t.steps[m].res == LoginOk
    && var x := t.steps[m].t;
    && x in t.states[m].tasks
    && t.states[m].tasks[x].conn == c && t.states[m].tasks[x].phase == Validating(user)
  }

  /** A bound user does not change; a new one is the user of a bind that was just found valid. */
  lemma ClientStep(s: Manager, st: Step, s': Manager, c: int)
    requires Next(s, st, s') && c in s'.clients
    ensures
      if c in s.clients then s'.clients[c] == s.clients[c]
      else
        && st.Validated? && st.res == LoginOk && s.tasks[st.t].conn == c
        && s.tasks[st.t].phase == Validating(s'.clients[c])
  {
  }

  /**
   * A connection that was not bound and now is: in between ValidateUser returned OK for a bind on that connection, and
   * the user is the one that this bind asked for, with the addresses its mode needs.
   */
  lemma {:induction false} Admission(t: Trace, i: nat, j: nat, c: int)
    requires Run(t) && i <= j <= |t.steps|
    requires c !in t.states[i].clients && c in t.states[j].clients
    ensures UserOk(t.states[j].clients[c])
    ensures exists m: nat :: i <= m < j && AdmittedAt(t, m, c, t.states[j].clients[c])
    decreases j - i
  {
    RunKeeps(t, j);
    var s, st, s' := t.states[j - 1], t.steps[j - 1], t.states[j];
    assert Next(s, st, s');
    ClientStep(s, st, s', c);
    if c in s.clients {
      Admission(t, i, j - 1, c);
    } else {
      assert AdmittedAt(t, j - 1, c, s'.clients[c]);
    }
  }

  /** The bind that ValidateUser accepted came while its connection was not bound, and asked for exactly this user. */
  lemma AdmittedBind(t: Trace, m: nat, c: int, user: User)
    requires Run(t) && AdmittedAt(t, m, c, user)
    ensures exists a: nat, x: nat, n: nat, mode: Mode, systemId: seq<byte>, password: seq<byte>, range: seq<byte> ::
              a < m && t.steps[a] == Command(x, c, n, Bind(mode, systemId, password, range))
              && c !in t.states[a].clients && UserOf(mode, systemId, range) == Some(user)
  {
    var x := t.steps[m].t;
    var task := t.states[m].tasks[x];
    RunKeeps(t, m);
    assert TaskOk(task);
    TaskOrigin(t, m, x);
    var a: nat :| a < m && AskedAt(t, a, x, task);
    var cmd := task.cmd;
    assert t.steps[a] == Command(x, c, task.seqNo, Bind(cmd.mode, cmd.systemId, cmd.password, cmd.range));
  }

  // Submissions

  /** A submission that a bound user may make. */
  predicate MaySubmit(user: User, from: seq<byte>, to: seq<byte>) {
    && user.mode != Receiver
    && (user.mode == Transmitter || (Owns(user.addresses, from) && !Owns(user.addresses, to)))
  }

  /** Step a brought the submission from a connection that was bound as the user. */
  ghost predicate SubmittedAt(t: Trace, a: nat, c: int, user: User, from: seq<byte>, to: seq<byte>, text: seq<byte>) {
    && a < |t.steps| && a < |t.states|
    && t.steps[a].Command? && t.steps[a].conn == c && t.steps[a].cmd == SubmitSm(from, to, text)
    && c in t.states[a].clients && t.states[a].clients[c] == user
  }

  lemma DeliveredStep(s: Manager, st: Step, s': Manager, e: Event)
    requires Next(s, st, s') && e in s'.log && e !in s.log && e.Delivered?
    ensures
      && st.Checked?
      && var task := s.tasks[st.t];
      && task.cmd == SubmitSm(e.from, e.to, e.text) && task.conn == e.conn && task.phase == Submitting(e.user)
      && SubmitStatus(e.user, e.from, e.to) == ESME_ROK
  {
  }

  /** DeliverMessage is called only for a submission that came from a bound user, and that this user may make. */
  lemma {:induction false} DeliverySafe(t: Trace, k: nat, e: Event)
    requires Run(t) && k <= |t.steps| && e in t.states[k].log && e.Delivered?
    ensures MaySubmit(e.user, e.from, e.to)
    ensures exists a: nat :: a < k && SubmittedAt(t, a, e.conn, e.user, e.from, e.to, e.text)
  {
    if k > 0 {
      var s, st, s' := t.states[k - 1], t.steps[k - 1], t.states[k];
      assert Next(s, st, s');
      if e in s.log {
        DeliverySafe(t, k - 1, e);
      } else {
        DeliveredStep(s, st, s', e);
        TaskOrigin(t, k - 1, st.t);
        var a: nat :| a < k - 1 && AskedAt(t, a, st.t, s.tasks[st.t]);
        assert SubmittedAt(t, a, e.conn, e.user, e.from, e.to, e.text);
      }
    }
  }

  /**
   * The check of a submission from a connection that was bound as the user: DeliverMessage is called exactly when the
   * user may make it. A receiver is told 0x03; of the others one that does not own the source 0x0A, one that owns both
   * addresses 0x0B.
   */
  lemma SubmissionExactly(t: Trace, k: nat, x: nat)
    requires Run(t) && k < |t.steps| && t.steps[k] == Checked(x)
    ensures x in t.states[k].tasks && t.states[k].tasks[x].cmd.SubmitSm? && t.states[k].tasks[x].phase.Submitting?
    ensures var s, s' := t.states[k], t.states[k + 1];
            var conn, user, SubmitSm(from, to, text) := s.tasks[x].conn, s.tasks[x].phase.user, s.tasks[x].cmd;
            && (exists a: nat :: a < k && SubmittedAt(t, a, conn, user, from, to, text))
            && s'.log == s.log + (if MaySubmit(user, from, to) then [Delivered(conn, user, from, to, text)] else [])
            && x in s'.tasks
            && s'.tasks[x].phase == if MaySubmit(user, from, to) then Delivering(user)
                                    else Replying(if user.mode == Receiver then 0x03
                                                  else if !Owns(user.addresses, from) then 0x0A else 0x0B, true)
  {
    var s, s' := t.states[k], t.states[k + 1];
    assert Next(s, t.steps[k], s');
    var task := s.tasks[x];
    TaskOrigin(t, k, x);
    var a: nat :| a < k && AskedAt(t, a, x, task);
    assert SubmittedAt(t, a, task.conn, task.phase.user, task.cmd.from, task.cmd.to, task.cmd.text);
    LogStep(s, t.steps[k], s');
  }

  // Counting events

  function Tally(log: seq<Event>, p: Event -> bool): nat {
    if log == [] then 0
    else Tally(log[..|log| - 1], p) + if p(log[|log| - 1]) then 1 else 0
  }

  lemma TallyOne(log: seq<Event>, e: Event, p: Event -> bool)
    ensures Tally(log + [e], p) == Tally(log, p) + if p(e) then 1 else 0
  {
    Appended(log, [e]);
  }

  /** The connections that are counted: one, or all of them. */
  predicate Counted(only: Option<int>, conn: int) {
    only.None? || only.value == conn
  }

  function Insertion(only: Option<int>): Event -> bool {
    (e: Event) => e.Inserted? && Counted(only, e.conn)
  }

  function Removal(only: Option<int>, reason: Reason): Event -> bool {
    (e: Event) => e.Removed? && Counted(only, e.conn) && e.reason == reason
  }

  function Report(only: Option<int>, reason: Reason): Event -> bool {
    (e: Event) => e.Disconnected? && Counted(only, e.conn) && e.reason == reason
  }

  /** The counted connections that are bound. */
  function Bound(s: Manager, only: Option<int>): set<int> {
    set c | c in s.clients && Counted(only, c)
  }

  /** The unbinds under way: erased, and their callback not yet run. */
  function InFlight(s: Manager, only: Option<int>): set<nat> {
    set x | x in s.tasks && s.tasks[x].phase.Leaving? && Counted(only, s.tasks[x].conn)
  }

  /** What a step adds to the log. */
  function Events(s: Manager, st: Step): seq<Event> {
    match st
    case NetworkError(c) =>
      if c in s.clients then [Disconnected(c, s.clients[c].systemId, ByNetError), Removed(c, ByNetError)] else []
    case Command(_, c, _, cmd) => if c in s.clients && cmd.Unbind? then [Removed(c, ByUnbind)] else []
    case Validated(x, res) =>
      if x in s.tasks && s.tasks[x].phase.Validating? && res == LoginOk && s.tasks[x].conn !in s.clients then
        [Inserted(s.tasks[x].conn, s.tasks[x].phase.user)]
      else []
    case Notified(x) =>
      if x in s.tasks && s.tasks[x].phase.Leaving? then
        [Disconnected(s.tasks[x].conn, s.tasks[x].phase.user.systemId, ByUnbind)]
      else []
    case Checked(x) =>
      if x in s.tasks && s.tasks[x].phase.Submitting? && s.tasks[x].cmd.SubmitSm?
         && SubmitStatus(s.tasks[x].phase.user, s.tasks[x].cmd.from, s.tasks[x].cmd.to) == ESME_ROK then
        [Delivered(s.tasks[x].conn, s.tasks[x].phase.user, s.tasks[x].cmd.from, s.tasks[x].cmd.to, s.tasks[x].cmd.text)]
      else []
    case Reply(x) =>
      if x in s.tasks && s.tasks[x].phase.Replying? then
        [Responded(x, s.tasks[x].conn, s.tasks[x].seqNo, s.tasks[x].phase.status)]
      else []
    case Kick(c) => if c in s.clients then [Removed(c, ByKeepAlive)] else []
    case _ => []
  }

  lemma LogStep(s: Manager, st: Step, s': Manager)
    requires Next(s, st, s')
    ensures s'.log == s.log + Events(s, st)
  {
  }

  function Hits(es: seq<Event>, p: Event -> bool): nat {
    (if |es| > 0 && p(es[0]) then 1 else 0) + (if |es| > 1 && p(es[1]) then 1 else 0)
  }

  lemma TallyStep(s: Manager, st: Step, s': Manager, p: Event -> bool)
    requires Next(s, st, s')
    ensures Tally(s'.log, p) == Tally(s.log, p) + Hits(Events(s, st), p)
  {
    var es := Events(s, st);
    LogStep(s, st, s');
    if |es| == 0 {
      assert s.log + es == s.log;
    } else if |es| == 1 {
      assert es == [es[0]];
      TallyOne(s.log, es[0], p);
    } else {
      assert es == [es[0], es[1]];
      assert s.log + es == (s.log + [es[0]]) + [es[1]];
      TallyOne(s.log, es[0], p);
      TallyOne(s.log + [es[0]], es[1], p);
    }
  }

  /** The table changes by the insertion or the removal that the step logs, if any. */
  lemma ClientsStep(s: Manager, st: Step, s': Manager)
    requires Next(s, st, s')
    ensures
      var es := Events(s, st);
      if es == [] then s'.clients == s.clients
      else
        match es[|es| - 1]
        case Inserted(c, user) => |es| == 1 && c !in s.clients && s'.clients == s.clients[c := user]
        case Removed(c, reason) =>
          && c in s.clients && s'.clients == s.clients - {c}
          && (if reason == ByNetError then |es| == 2 && es[0].Disconnected? else |es| == 1)
        case _ => |es| == 1 && s'.clients == s.clients
  {
  }

  lemma BoundInsert(s: Manager, s': Manager, c: int, user: User, only: Option<int>)
    requires c !in s.clients && s'.clients == s.clients[c := user]
    ensures |Bound(s', only)| == |Bound(s, only)| + if Counted(only, c) then 1 else 0
  {
    assert Bound(s', only) == if Counted(only, c) then Bound(s, only) + {c} else Bound(s, only);
  }

  lemma BoundErase(s: Manager, s': Manager, c: int, only: Option<int>)
    requires c in s.clients && s'.clients == s.clients - {c}
    ensures |Bound(s, only)| == |Bound(s', only)| + if Counted(only, c) then 1 else 0
  {
    assert Bound(s, only) == if Counted(only, c) then Bound(s', only) + {c} else Bound(s', only);
  }

  /** One more bound connection for an insertion, one fewer for a removal. */
  lemma BoundStep(s: Manager, st: Step, s': Manager, only: Option<int>)
    requires Next(s, st, s')
    ensures |Bound(s', only)| + Hits(Events(s, st), Removal(only, ByUnbind))
            + Hits(Events(s, st), Removal(only, ByNetError)) + Hits(Events(s, st), Removal(only, ByKeepAlive))
            == |Bound(s, only)| + Hits(Events(s, st), Insertion(only))
  {
    var es := Events(s, st);
    ClientsStep(s, st, s');
    if es == [] {
    } else if es[|es| - 1].Inserted? {
      BoundInsert(s, s', es[0].conn, es[0].user, only);
    } else if es[|es| - 1].Removed? {
      BoundErase(s, s', es[|es| - 1].conn, only);
    }
  }

  lemma TasksStep(s: Manager, st: Step, s': Manager)
    requires Next(s, st, s')
    ensures forall x | x in s.tasks && s.tasks[x].phase.Leaving? && st != Notified(x) ::
              x in s'.tasks && s'.tasks[x] == s.tasks[x]
    ensures forall x | x in s'.tasks && s'.tasks[x].phase.Leaving? ::
              if x in s.tasks then s'.tasks[x] == s.tasks[x]
              else st.Command? && st.t == x && st.conn == s'.tasks[x].conn && st.conn in s.clients && st.cmd.Unbind?
  {
  }

  lemma LeavingStarts(s: Manager, st: Step, s': Manager, only: Option<int>)
    requires Next(s, st, s') && st.Command? && st.conn in s.clients && st.cmd.Unbind?
    ensures |InFlight(s', only)| == |InFlight(s, only)| + if Counted(only, st.conn) then 1 else 0
  {
    TasksStep(s, st, s');
    var f := InFlight(s, only);
    assert s'.tasks[st.t].phase.Leaving? && s'.tasks[st.t].conn == st.conn;
    assert InFlight(s', only) == if Counted(only, st.conn) then f + {st.t} else f;
  }

  lemma LeavingEnds(s: Manager, st: Step, s': Manager, only: Option<int>)
    requires Next(s, st, s') && st.Notified?
    ensures |InFlight(s, only)| == |InFlight(s', only)| + if Counted(only, s.tasks[st.t].conn) then 1 else 0
  {
    TasksStep(s, st, s');
    var f' := InFlight(s', only);
    assert s'.tasks[st.t].phase.Replying?;
    assert InFlight(s, only) == if Counted(only, s.tasks[st.t].conn) then f' + {st.t} else f';
  }

  /** An unbind is under way from its removal to its report. */
  lemma InFlightStep(s: Manager, st: Step, s': Manager, only: Option<int>)
    requires Next(s, st, s')
    ensures |InFlight(s', only)| + Hits(Events(s, st), Report(only, ByUnbind))
            == |InFlight(s, only)| + Hits(Events(s, st), Removal(only, ByUnbind))
  {
    if st.Command? && st.conn in s.clients && st.cmd.Unbind? {
      LeavingStarts(s, st, s', only);
    } else if st.Notified? {
      LeavingEnds(s, st, s', only);
    } else {
      InFlightSame(s, st, s', only);
    }
  }

  lemma InFlightSame(s: Manager, st: Step, s': Manager, only: Option<int>)
    requires Next(s, st, s') && !st.Notified? && !(st.Command? && st.conn in s.clients && st.cmd.Unbind?)
    ensures InFlight(s', only) == InFlight(s, only)
    ensures Hits(Events(s, st), Removal(only, ByUnbind)) == Hits(Events(s, st), Report(only, ByUnbind)) == 0
  {
    TasksStep(s, st, s');
  }

  ghost predicate Conserved(s: Manager, only: Option<int>) {
    && Tally(s.log, Insertion(only))
       == |Bound(s, only)| + Tally(s.log, Removal(only, ByUnbind)) + Tally(s.log, Removal(only, ByNetError))
          + Tally(s.log, Removal(only, ByKeepAlive))
    && Tally(s.log, Removal(only, ByUnbind)) == Tally(s.log, Report(only, ByUnbind)) + |InFlight(s, only)|
    && Tally(s.log, Removal(only, ByNetError)) == Tally(s.log, Report(only, ByNetError))
    && Tally(s.log, Report(only, ByKeepAlive)) == 0
  }

  /** A network error is reported as it removes, and no keep-alive removal is reported. */
  lemma ReportsInStep(s: Manager, st: Step, only: Option<int>)
    ensures var es := Events(s, st);
            && Hits(es, Removal(only, ByNetError)) == Hits(es, Report(only, ByNetError))
            && Hits(es, Report(only, ByKeepAlive)) == 0
  {
  }

  lemma ConservedStep(s: Manager, st: Step, s': Manager, only: Option<int>)
    requires Next(s, st, s') && Conserved(s, only)
    ensures Conserved(s', only)
  {
    TallyStep(s, st, s', Insertion(only));
    TallyStep(s, st, s', Removal(only, ByUnbind));
    TallyStep(s, st, s', Removal(only, ByNetError));
    TallyStep(s, st, s', Removal(only, ByKeepAlive));
    TallyStep(s, st, s', Report(only, ByUnbind));
    TallyStep(s, st, s', Report(only, ByNetError));
    TallyStep(s, st, s', Report(only, ByKeepAlive));
    BoundStep(s, st, s', only);
    InFlightStep(s, st, s', only);
    ReportsInStep(s, st, only);
  }

  /**
   * At every step, for one connection and for all of them together: the insertions are the bound users and those
   * removed by unbind, network error and keep-alive; each unbind is reported or about to be, each network error is
   * reported, and no keep-alive removal is.
   */
  lemma {:induction false} Conservation(t: Trace, k: nat, only: Option<int>)
    requires Run(t) && k <= |t.steps|
    ensures Conserved(t.states[k], only)
  {
    if k == 0 {
      assert Bound(STARTED, only) == {} && InFlight(STARTED, only) == {};
    } else {
      Conservation(t, k - 1, only);
      assert Next(t.states[k - 1], t.steps[k - 1], t.states[k]);
      ConservedStep(t.states[k - 1], t.steps[k - 1], t.states[k], only);
    }
  }

  /** So no insertion is reported twice, and as many connections are bound as the table holds. */
  lemma ReportedAtMostOnce(t: Trace, k: nat, c: int)
    requires Run(t) && k <= |t.steps|
    ensures var log := t.states[k].log;
            Tally(log, Report(Some(c), ByUnbind)) + Tally(log, Report(Some(c), ByNetError))
            + (if c in t.states[k].clients then 1 else 0) <= Tally(log, Insertion(Some(c)))
    ensures |Bound(t.states[k], None)| == |t.states[k].clients|
  {
    var s := t.states[k];
    Conservation(t, k, Some(c));
    assert Bound(s, None) == s.clients.Keys;
    if c in s.clients { assert Bound(s, Some(c)) == {c}; }
  }

  // Responses

  function Response(x: nat): Event -> bool {
    (e: Event) => e.Responded? && e.t == x
  }

  predicate Answered(s: Manager, x: nat) {
    x in s.tasks && s.tasks[x].phase.Done?
  }

  lemma AnsweredStep(s: Manager, st: Step, s': Manager, x: nat)
    requires Next(s, st, s')
    ensures (if Answered(s', x) then 1 else 0) == (if Answered(s, x) then 1 else 0) + Hits(Events(s, st), Response(x))
  {
  }

  /** Each command is answered at most once, and exactly once when its handling is over. */
  lemma {:induction false} OneResponse(t: Trace, k: nat, x: nat)
    requires Run(t) && k <= |t.steps|
    ensures Tally(t.states[k].log, Response(x)) == if Answered(t.states[k], x) then 1 else 0
  {
    if k > 0 {
      OneResponse(t, k - 1, x);
      assert Next(t.states[k - 1], t.steps[k - 1], t.states[k]);
      TallyStep(t.states[k - 1], t.steps[k - 1], t.states[k], Response(x));
      AnsweredStep(t.states[k - 1], t.steps[k - 1], t.states[k], x);
    }
  }

  /** How many steps are left at most until the response is sent. */
  function StepsLeft(p: Phase): nat {
    match p
    case Submitting(_) => 3
    case Validating(_) => 2
    case Leaving(_) => 2
    case Delivering(_) => 2
    case Replying(_, _) => 1
    case Done(_, _) => 0
  }

  /** The handling of a command is never stuck, and every step of its task brings its response nearer. */
  lemma HandlingGoesOn(t: Trace, k: nat, x: nat) returns (st: Step)
    requires Run(t) && k <= |t.steps| && x in t.states[k].tasks && !t.states[k].tasks[x].phase.Done?
    ensures Enabled(t.states[k], st)
    ensures var s' := Apply(t.states[k], st);
            x in s'.tasks && StepsLeft(s'.tasks[x].phase) < StepsLeft(t.states[k].tasks[x].phase)
  {
    RunKeeps(t, k);
    assert TaskOk(t.states[k].tasks[x]);
    match t.states[k].tasks[x].phase
    case Validating(_) => st := Validated(x, LoginOk);
    case Leaving(_) => st := Notified(x);
    case Submitting(_) => st := Checked(x);
    case Delivering(_) => st := DeliveryReturns(x, DeliveryOk);
    case Replying(_, _) => st := Reply(x);
  }

  /** No step takes a task back. */
  lemma NeverBack(s: Manager, st: Step, s': Manager, x: nat)
    requires Next(s, st, s') && x in s.tasks
    ensures x in s'.tasks && StepsLeft(s'.tasks[x].phase) <= StepsLeft(s.tasks[x].phase)
  {
  }

  lemma RespondedStep(s: Manager, st: Step, s': Manager, e: Event)
    requires Next(s, st, s') && e in s'.log && e !in s.log && e.Responded?
    ensures st == Reply(e.t) && s.tasks[e.t].conn == e.conn && s.tasks[e.t].seqNo == e.seqNo
  {
  }

  /** A response goes to the connection that the command came from, with the command's sequence number. */
  lemma {:induction false} ResponseIsForCommand(t: Trace, k: nat, e: Event)
    requires Run(t) && k <= |t.steps| && e in t.states[k].log && e.Responded?
    ensures exists a: nat :: a < k && t.steps[a].Command? && t.steps[a] == Command(e.t, e.conn, e.seqNo, t.steps[a].cmd)
  {
    if k > 0 {
      var s, st, s' := t.states[k - 1], t.steps[k - 1], t.states[k];
      assert Next(s, st, s');
      if e in s.log {
        ResponseIsForCommand(t, k - 1, e);
      } else {
        RespondedStep(s, st, s', e);
        TaskOrigin(t, k - 1, e.t);
        var a: nat :| a < k - 1 && AskedAt(t, a, e.t, s.tasks[e.t]);
        assert t.steps[a] == Command(e.t, e.conn, e.seqNo, s.tasks[e.t].cmd);
      }
    }
  }

  lemma ReportStep(s: Manager, st: Step, s': Manager, e: Event)
    requires Next(s, st, s') && e in s'.log && e !in s.log && e.Disconnected?
    ensures || (st == NetworkError(e.conn) && e.conn in s.clients && s.clients[e.conn].systemId == e.systemId)
            || (st.Notified? && s.tasks[st.t].conn == e.conn && s.tasks[st.t].phase.user.systemId == e.systemId)
  {
  }

  /** OnUserDisconnected is called with the system id of a user that was admitted on that connection. */
  lemma {:induction false} ReportNamesUser(t: Trace, k: nat, e: Event)
    requires Run(t) && k <= |t.steps| && e in t.states[k].log && e.Disconnected?
    ensures exists m: nat, user: User :: m < k && AdmittedAt(t, m, e.conn, user) && user.systemId == e.systemId
  {
    if k > 0 {
      var s, st, s' := t.states[k - 1], t.steps[k - 1], t.states[k];
      assert Next(s, st, s');
      if e in s.log {
        ReportNamesUser(t, k - 1, e);
      } else {
        ReportStep(s, st, s', e);
        if st == NetworkError(e.conn) && e.conn in s.clients && s.clients[e.conn].systemId == e.systemId {
          Admission(t, 0, k - 1, e.conn);
        } else {
          TaskOrigin(t, k - 1, st.t);
          var a: nat :| a < k - 1 && AskedAt(t, a, st.t, s.tasks[st.t]);
          Admission(t, 0, a, e.conn);
        }
      }
    }
  }

  // What a response says

  /** A step in between decided the status: ValidateUser, the notification of an unbind, or DeliverMessage. */
  ghost predicate DecidedBy(t: Trace, a: nat, k: nat, st: Step)
    requires k <= |t.steps|
  {
    exists m: nat :: a < m < k && t.steps[m] == st
  }

  /** A bind of a connection that was not bound: refused for its addresses, or told what ValidateUser decided. */
  ghost predicate BindTold(t: Trace, a: nat, k: nat, x: nat, mode: Mode, range: seq<byte>, status: nat)
    requires k <= |t.steps|
  {
    if mode != Transmitter && ParseAddresses(range).None? then status == 0x03
    else
      || (status == 0x00 && DecidedBy(t, a, k, Validated(x, LoginOk)))
      || (status == 0x0E && DecidedBy(t, a, k, Validated(x, LoginInvalidPwd)))
      || (status == 0x0F && DecidedBy(t, a, k, Validated(x, LoginInvalidUsr)))
      || (status == 0x0D && exists res :: res in {LoginFail, LoginInvalidAddr, LoginInvalidCmd}
                                          && DecidedBy(t, a, k, Validated(x, res)))
  }

  /** A submission of a user: refused for its mode or its addresses, or told what DeliverMessage returned. */
  ghost predicate SubmissionTold(t: Trace, a: nat, k: nat, x: nat, user: User, from: seq<byte>, to: seq<byte>, status: nat)
    requires k <= |t.steps|
  {
    if user.mode == Receiver then status == 0x03
    else if user.mode == Transceiver && !Owns(user.addresses, from) then status == 0x0A
    else if user.mode == Transceiver && Owns(user.addresses, to) then status == 0x0B
    else
      || (status == 0x00 && DecidedBy(t, a, k, DeliveryReturns(x, DeliveryOk)))
      || (status == 0x58 && DecidedBy(t, a, k, DeliveryReturns(x, DeliveryRejected)))
      || (status == 0x0A && DecidedBy(t, a, k, DeliveryReturns(x, DeliveryInvSrcAddr)))
      || (status == 0x0B && DecidedBy(t, a, k, DeliveryReturns(x, DeliveryInvDestAddr)))
      || (status == 0x08 && DecidedBy(t, a, k, DeliveryReturns(x, DeliveryUnknownError)))
  }

  /** The status and the decision to keep the connection are what the command, brought at step a, has to be told. */
  ghost predicate ToBeTold(t: Trace, a: nat, k: nat, x: nat, status: nat, keep: bool)
    requires a < k <= |t.steps| && |t.states| == |t.steps| + 1
  {
    && t.steps[a].Command? && t.steps[a].t == x
    && var c, cmd, clients := t.steps[a].conn, t.steps[a].cmd, t.states[a].clients;
    if c !in clients then
      (keep <==> status == 0x00)
      && (if cmd.Bind? then BindTold(t, a, k, x, cmd.mode, cmd.range, status) else status == 0x04)
    else
      (keep <==> !cmd.Unbind?)
      && match cmd
         case Bind(_, _, _, _) => status == 0x05
         case Unbind => status == 0x00 && DecidedBy(t, a, k, Notified(x))
         case EnquireLink => status == 0x00
         case Other => status == 0x03
         case SubmitSm(from, to, _) => SubmissionTold(t, a, k, x, clients[c], from, to, status)
  }

  /** Until it is told, the phase of a task says how far its handling has come. */
  ghost predicate OnItsWay(t: Trace, a: nat, k: nat, x: nat, task: Task)
    requires a < k <= |t.steps| && |t.states| == |t.steps| + 1
  {
    && t.steps[a] == Command(x, task.conn, task.seqNo, task.cmd)
    && var clients := t.states[a].clients;
    match task.phase
    case Validating(_) =>
      task.cmd.Bind? && task.conn !in clients && (task.cmd.mode == Transmitter || ParseAddresses(task.cmd.range).Some?)
    case Leaving(_) => task.cmd.Unbind? && task.conn in clients
    case Submitting(user) => task.cmd.SubmitSm? && task.conn in clients && clients[task.conn] == user
    case Delivering(user) =>
      && task.cmd.SubmitSm? && task.conn in clients && clients[task.conn] == user
      && MaySubmit(user, task.cmd.from, task.cmd.to)
    case Replying(status, keep) => ToBeTold(t, a, k, x, status, keep)
    case Done(status, keep) => ToBeTold(t, a, k, x, status, keep)
  }

  lemma DecidedBefore(t: Trace, a: nat, k: nat, st: Step)
    requires k < |t.steps|
    ensures DecidedBy(t, a, k, st) ==> DecidedBy(t, a, k + 1, st)
    ensures a < k && t.steps[k] == st ==> DecidedBy(t, a, k + 1, st)
  {
  }

  lemma StillToBeTold(t: Trace, a: nat, k: nat, x: nat, status: nat, keep: bool)
    requires a < k < |t.steps| && |t.states| == |t.steps| + 1 && ToBeTold(t, a, k, x, status, keep)
    ensures ToBeTold(t, a, k + 1, x, status, keep)
  {
    forall st | DecidedBy(t, a, k, st) ensures DecidedBy(t, a, k + 1, st) { DecidedBefore(t, a, k, st); }
  }

  lemma OnItsWayStarts(t: Trace, k: nat, x: nat)
    requires Run(t) && k < |t.steps| && t.steps[k].Command? && t.steps[k].t == x
    ensures x in t.states[k + 1].tasks && OnItsWay(t, k, k + 1, x, t.states[k + 1].tasks[x])
  {
    assert Next(t.states[k], t.steps[k], t.states[k + 1]);
  }

  lemma ValidatedTold(t: Trace, a: nat, k: nat, x: nat, res: LoginResult)
    requires Run(t) && a < k < |t.steps| && x in t.states[k].tasks && OnItsWay(t, a, k, x, t.states[k].tasks[x])
    requires t.steps[k] == Validated(x, res)
    ensures x in t.states[k + 1].tasks && OnItsWay(t, a, k + 1, x, t.states[k + 1].tasks[x])
  {
    assert Next(t.states[k], t.steps[k], t.states[k + 1]);
    DecidedBefore(t, a, k, t.steps[k]);
  }

  lemma DeliveryTold(t: Trace, a: nat, k: nat, x: nat, res: DeliveryResult)
    requires Run(t) && a < k < |t.steps| && x in t.states[k].tasks && OnItsWay(t, a, k, x, t.states[k].tasks[x])
    requires t.steps[k] == DeliveryReturns(x, res)
    ensures x in t.states[k + 1].tasks && OnItsWay(t, a, k + 1, x, t.states[k + 1].tasks[x])
  {
    assert Next(t.states[k], t.steps[k], t.states[k + 1]);
    DecidedBefore(t, a, k, t.steps[k]);
  }

  lemma NotificationTold(t: Trace, a: nat, k: nat, x: nat)
    requires Run(t) && a < k < |t.steps| && x in t.states[k].tasks && OnItsWay(t, a, k, x, t.states[k].tasks[x])
    requires t.steps[k] == Notified(x) || t.steps[k] == Checked(x) || t.steps[k] == Reply(x)
    ensures x in t.states[k + 1].tasks && OnItsWay(t, a, k + 1, x, t.states[k + 1].tasks[x])
  {
    assert Next(t.states[k], t.steps[k], t.states[k + 1]);
    DecidedBefore(t, a, k, t.steps[k]);
    var task := t.states[k].tasks[x];
    if task.phase.Replying? { StillToBeTold(t, a, k, x, task.phase.status, task.phase.keep); }
  }

  /** The step that moves the task on. */
  predicate OwnStep(st: Step, x: nat) {
    match st
    case Validated(y, _) => y == x
    case Notified(y) => y == x
    case Checked(y) => y == x
    case DeliveryReturns(y, _) => y == x
    case Reply(y) => y == x
    case _ => false
  }

  lemma OthersLeaveIt(s: Manager, st: Step, s': Manager, x: nat)
    requires Next(s, st, s') && x in s.tasks && !OwnStep(st, x)
    ensures x in s'.tasks && s'.tasks[x] == s.tasks[x]
  {
  }

  lemma OnItsWayGoesOn(t: Trace, a: nat, k: nat, x: nat)
    requires Run(t) && a < k < |t.steps| && x in t.states[k].tasks && OnItsWay(t, a, k, x, t.states[k].tasks[x])
    ensures x in t.states[k + 1].tasks && OnItsWay(t, a, k + 1, x, t.states[k + 1].tasks[x])
  {
    var task := t.states[k].tasks[x];
    if OwnStep(t.steps[k], x) {
      match t.steps[k]
      case Validated(_, res) => ValidatedTold(t, a, k, x, res);
      case DeliveryReturns(_, res) => DeliveryTold(t, a, k, x, res);
      case _ => NotificationTold(t, a, k, x);
    } else {
      assert Next(t.states[k], t.steps[k], t.states[k + 1]);
      OthersLeaveIt(t.states[k], t.steps[k], t.states[k + 1], x);
      if task.phase.Replying? || task.phase.Done? {
        StillToBeTold(t, a, k, x, task.phase.status, task.phase.keep);
      }
    }
  }

  lemma {:induction false} EveryTaskOnItsWay(t: Trace, k: nat, x: nat)
    requires Run(t) && k <= |t.steps| && x in t.states[k].tasks
    ensures exists a: nat :: a < k && OnItsWay(t, a, k, x, t.states[k].tasks[x])
  {
    if k > 0 {
      var s, st, s' := t.states[k - 1], t.steps[k - 1], t.states[k];
      assert Next(s, st, s');
      if x in s.tasks {
        EveryTaskOnItsWay(t, k - 1, x);
        var a: nat :| a < k - 1 && OnItsWay(t, a, k - 1, x, s.tasks[x]);
        OnItsWayGoesOn(t, a, k - 1, x);
      } else {
        OnItsWayStarts(t, k - 1, x);
      }
    }
  }

  /** Every response of every run tells what the table said when the command came and what the callbacks returned. */
  lemma ResponseExplained(t: Trace, k: nat, x: nat)
    requires Run(t) && k < |t.steps| && t.steps[k] == Reply(x)
    ensures x in t.states[k + 1].tasks && t.states[k + 1].tasks[x].phase.Done?
    ensures var task := t.states[k + 1].tasks[x];
            && t.states[k + 1].log == t.states[k].log + [Responded(x, task.conn, task.seqNo, task.phase.status)]
            && exists a: nat :: a < k && t.steps[a] == Command(x, task.conn, task.seqNo, task.cmd)
                                && ToBeTold(t, a, k, x, task.phase.status, task.phase.keep)
  {
    assert Next(t.states[k], t.steps[k], t.states[k + 1]);
    EveryTaskOnItsWay(t, k, x);
  }

  // What a bind's answer means

  lemma BindReplyStep(s: Manager, st: Step, s': Manager, x: nat)
    requires Inv(s) && Next(s, st, s') && x in s'.tasks && Settled(s'.tasks[x], ESME_ROK)
    ensures || (x in s.tasks && s.tasks[x].cmd == s'.tasks[x].cmd && s.tasks[x].conn == s'.tasks[x].conn
                && Settled(s.tasks[x], ESME_ROK))
            || (st == Validated(x, LoginOk) && s'.tasks[x].conn in s'.clients)
  {
    if x in s.tasks { assert TaskOk(s.tasks[x]); }
  }

  /** A bind whose status is settled. */
  predicate Settled(task: Task, status: nat) {
    task.cmd.Bind? && (task.phase.Replying? || task.phase.Done?) && task.phase.status == status
  }

  /** A bind is answered ESME_ROK only after ValidateUser accepted it, and its connection was bound right then. */
  lemma {:induction false} BindOk(t: Trace, k: nat, x: nat)
    requires Run(t) && k <= |t.steps| && x in t.states[k].tasks && Settled(t.states[k].tasks[x], ESME_ROK)
    ensures exists m: nat :: m < k && t.steps[m] == Validated(x, LoginOk)
                             && t.states[k].tasks[x].conn in t.states[m + 1].clients
  {
    if k > 0 {
      var s, st, s' := t.states[k - 1], t.steps[k - 1], t.states[k];
      assert Next(s, st, s');
      RunKeeps(t, k - 1);
      BindReplyStep(s, st, s', x);
      if st != Validated(x, LoginOk) || s'.tasks[x].conn !in s'.clients {
        BindOk(t, k - 1, x);
      }
    }
  }

  // Whose user is kept

  /** The step takes the connection out of the table. */
  predicate Removes(st: Step, c: int) {
    st == NetworkError(c) || st == Kick(c) || (st.Command? && st.conn == c && st.cmd.Unbind?)
  }

  lemma RemovalStep(s: Manager, st: Step, s': Manager, c: int)
    requires Next(s, st, s')
    ensures Removes(st, c) ==> c !in s'.clients
    ensures c in s.clients && !Removes(st, c) ==> c in s'.clients
  {
  }

  ghost predicate NotRemoved(t: Trace, i: nat, j: nat, c: int)
    requires j <= |t.steps|
  {
    forall k | i <= k < j :: !Removes(t.steps[k], c)
  }

  lemma {:induction false} StaysBound(t: Trace, i: nat, j: nat, c: int)
    requires Run(t) && i <= j <= |t.steps| && c in t.states[i].clients && NotRemoved(t, i, j, c)
    ensures c in t.states[j].clients
    decreases j - i
  {
    if i < j {
      StaysBound(t, i, j - 1, c);
      assert Next(t.states[j - 1], t.steps[j - 1], t.states[j]);
      RemovalStep(t.states[j - 1], t.steps[j - 1], t.states[j], c);
    }
  }

  /** At step b ValidateUser accepted a bind of the connection, and nothing has removed the connection since. */
  ghost predicate BoundSince(t: Trace, b: nat, j: nat, c: int)
    requires j <= |t.steps|
  {
    b < j && (exists user :: AdmittedAt(t, b, c, user)) && NotRemoved(t, b + 1, j, c)
  }

  lemma AdmittedIsBound(t: Trace, b: nat, c: int, user: User)
    requires Run(t) && AdmittedAt(t, b, c, user)
    ensures c in t.states[b + 1].clients
  {
    assert Next(t.states[b], t.steps[b], t.states[b + 1]);
  }

  /** A connection that was not bound is bound later if and only if a bind was accepted and it was not removed since. */
  lemma {:induction false} BoundExactly(t: Trace, i: nat, j: nat, c: int)
    requires Run(t) && i <= j <= |t.steps| && c !in t.states[i].clients
    ensures c in t.states[j].clients <==> exists b: nat :: i <= b && BoundSince(t, b, j, c)
    decreases j - i
  {
    if b: nat :| i <= b && BoundSince(t, b, j, c) {
      var user :| AdmittedAt(t, b, c, user);
      AdmittedIsBound(t, b, c, user);
      StaysBound(t, b + 1, j, c);
    }
    if c in t.states[j].clients {
      LastAdmission(t, i, j, c);
    }
  }

  lemma {:induction false} LastAdmission(t: Trace, i: nat, j: nat, c: int)
    requires Run(t) && i <= j <= |t.steps| && c !in t.states[i].clients && c in t.states[j].clients
    ensures exists b: nat :: i <= b && BoundSince(t, b, j, c)
    decreases j - i
  {
    var s, st, s' := t.states[j - 1], t.steps[j - 1], t.states[j];
    assert Next(s, st, s');
    RemovalStep(s, st, s', c);
    if c in s.clients {
      LastAdmission(t, i, j - 1, c);
      var b: nat :| i <= b && BoundSince(t, b, j - 1, c);
      assert BoundSince(t, b, j, c);
    } else {
      ClientStep(s, st, s', c);
      assert AdmittedAt(t, j - 1, c, s'.clients[c]);
      assert BoundSince(t, j - 1, j, c);
    }
  }

  /**
   * A bind that ValidateUser accepts puts its own user into the table if and only if no other bind of the connection
   * was accepted since its command came and is still in force; either way it is answered ESME_ROK.
   */
  lemma OwnUserKept(t: Trace, a: nat, m: nat, x: nat, c: int, q: nat, cmd: Command)
    requires Run(t) && a < m < |t.steps|
    requires t.steps[a] == Command(x, c, q, cmd) && t.steps[m] == Validated(x, LoginOk)
    ensures cmd.Bind? && UserOf(cmd.mode, cmd.systemId, cmd.range).Some?
    ensures var user := UserOf(cmd.mode, cmd.systemId, cmd.range).value;
            t.states[m + 1].log == t.states[m].log + [Inserted(c, user)]
            <==> !exists b: nat :: a < b && BoundSince(t, b, m, c)
    ensures var user := UserOf(cmd.mode, cmd.systemId, cmd.range).value;
            !(exists b: nat :: a < b && BoundSince(t, b, m, c)) ==>
              c in t.states[m + 1].clients && t.states[m + 1].clients[c] == user
    ensures x in t.states[m + 1].tasks && Settled(t.states[m + 1].tasks[x], ESME_ROK)
  {
    var s, s' := t.states[m], t.states[m + 1];
    assert Next(s, t.steps[m], s');
    RunKeeps(t, m);
    var task := s.tasks[x];
    assert TaskOk(task);
    TaskOrigin(t, m, x);
    var o: nat :| o < m && AskedAt(t, o, x, task);
    OneCommand(t, a, o, x);
    BoundExactly(t, a, m, c);
    forall b: nat | a <= b && BoundSince(t, b, m, c) ensures a < b {
      assert t.steps[b].Validated?;
    }
    LogStep(s, t.steps[m], s');
    if c in s.clients {
      assert s'.log == s.log;
    }
  }

  lemma {:induction false} TaskStays(t: Trace, i: nat, j: nat, x: nat)
    requires Run(t) && i <= j <= |t.steps| && x in t.states[i].tasks
    ensures x in t.states[j].tasks
    decreases j - i
  {
    if i < j {
      TaskStays(t, i, j - 1, x);
      assert Next(t.states[j - 1], t.steps[j - 1], t.states[j]);
    }
  }

  /** A task is brought by one command only. */
  lemma OneCommand(t: Trace, a: nat, o: nat, x: nat)
    requires Run(t) && a < |t.steps| && o < |t.steps|
    requires t.steps[a].Command? && t.steps[a].t == x && t.steps[o].Command? && t.steps[o].t == x
    ensures a == o
  {
    assert Next(t.states[a], t.steps[a], t.states[a + 1]) && Next(t.states[o], t.steps[o], t.states[o + 1]);
    if a < o { TaskStays(t, a + 1, o, x); }
    if o < a { TaskStays(t, o + 1, a, x); }
  }

  // Connections that are gone

  /** ValidateUser is running for a bind of the connection. */
  predicate UnderValidation(s: Manager, x: nat, c: int) {
    x in s.tasks && s.tasks[x].conn == c && s.tasks[x].phase.Validating?
  }

  lemma {:induction false} ValidatingBefore(t: Trace, i: nat, j: nat, x: nat, c: int)
    requires Run(t) && i <= j <= |t.steps| && x in t.states[i].tasks && UnderValidation(t.states[j], x, c)
    ensures UnderValidation(t.states[i], x, c)
    decreases j - i
  {
    if i < j {
      TaskStays(t, i, j - 1, x);
      assert Next(t.states[j - 1], t.steps[j - 1], t.states[j]);
      TaskStep(t.states[j - 1], t.steps[j - 1], t.states[j], x);
      ValidatingBefore(t, i, j - 1, x, c);
    }
  }

  /** After a network error the connection is not bound, unless ValidateUser accepts a bind of it later. */
  lemma AfterNetworkError(t: Trace, i: nat, j: nat, c: int)
    requires Run(t) && i < j <= |t.steps| && t.steps[i] == NetworkError(c) && c in t.states[j].clients
    ensures exists m: nat :: i < m < j && AdmittedAt(t, m, c, t.states[j].clients[c])
  {
    assert Next(t.states[i], t.steps[i], t.states[i + 1]);
    Admission(t, i + 1, j, c);
  }

  /**
   * After a network error no command of the connection comes any more. It is bound in some later state if and only if a
   * bind of it was under validation at the network error and ValidateUser then accepts it.
   */
  lemma DeadConnectionBound(t: Trace, i: nat, c: int)
    requires Run(t) && i < |t.steps| && t.steps[i] == NetworkError(c)
    requires forall k | i < k < |t.steps| && t.steps[k].Command? :: t.steps[k].conn != c
    ensures (exists j: nat :: i < j <= |t.steps| && c in t.states[j].clients)
            <==> exists m: nat, x: nat :: i < m < |t.steps| && t.steps[m] == Validated(x, LoginOk)
                                          && UnderValidation(t.states[i], x, c)
  {
    assert Next(t.states[i], t.steps[i], t.states[i + 1]);
    if j: nat :| i < j <= |t.steps| && c in t.states[j].clients {
      AcceptedLate(t, i, j, c);
    }
    if m: nat, x: nat :| i < m < |t.steps| && t.steps[m] == Validated(x, LoginOk) && UnderValidation(t.states[i], x, c) {
      assert Next(t.states[m], t.steps[m], t.states[m + 1]);
      SameConnection(t, i, m, x);
      assert c in t.states[m + 1].clients;
    }
  }

  lemma {:induction false} SameConnection(t: Trace, i: nat, j: nat, x: nat)
    requires Run(t) && i <= j <= |t.steps| && x in t.states[i].tasks
    ensures x in t.states[j].tasks && t.states[j].tasks[x].conn == t.states[i].tasks[x].conn
    decreases j - i
  {
    if i < j {
      SameConnection(t, i, j - 1, x);
      assert Next(t.states[j - 1], t.steps[j - 1], t.states[j]);
    }
  }

  lemma AcceptedLate(t: Trace, i: nat, j: nat, c: int)
    requires Run(t) && i < j <= |t.steps| && t.steps[i] == NetworkError(c) && c in t.states[j].clients
    requires forall k | i < k < |t.steps| && t.steps[k].Command? :: t.steps[k].conn != c
    ensures exists m: nat, x: nat :: i < m < |t.steps| && t.steps[m] == Validated(x, LoginOk)
                                     && UnderValidation(t.states[i], x, c)
  {
    assert Next(t.states[i], t.steps[i], t.states[i + 1]);
    Admission(t, i + 1, j, c);
    var m: nat :| i < m < j && AdmittedAt(t, m, c, t.states[j].clients[c]);
    var x := t.steps[m].t;
    TaskOrigin(t, m, x);
    var a: nat :| a < m && AskedAt(t, a, x, t.states[m].tasks[x]);
    assert a < i;
    assert Next(t.states[a], t.steps[a], t.states[a + 1]);
    TaskStays(t, a + 1, i, x);
    ValidatingBefore(t, i, m, x, c);
    assert t.steps[m] == Validated(x, LoginOk);
  }

  /**
   * That can happen: the network error comes while ValidateUser runs, finds no user to report, and the bind then leaves
   * a user for a connection that is gone.
   */
  lemma LateBind(c: int, user: User, range: seq<byte>)
    returns (t: Trace)
    requires user.mode == Transmitter && user.addresses == []
    ensures Run(t) && |t.steps| == 3 && t.steps[1] == NetworkError(c)
    ensures t.states[3].clients == map[c := user] && Tally(t.states[3].log, Report(None, ByNetError)) == 0
  {
    var bind := Bind(Transmitter, user.systemId, [], range);
    var steps := [Command(0, c, 1, bind), NetworkError(c), Validated(0, LoginOk)];
    var s1 := ApplyCommand(STARTED, 0, c, 1, bind);
    var s2 := ApplyValidated(s1, 0, LoginOk);
    t := Trace([STARTED, s1, s1, s2], steps);
    assert Next(s1, Validated(0, LoginOk), s2);
    assert s2.log == [] + [Inserted(c, user)];
    TallyOne([], Inserted(c, user), Report(None, ByNetError));
  }

  /** Two binds of a connection whose ValidateUser calls overlap are both answered ESME_ROK; the first user is kept. */
  lemma RacingBinds(c: int, one: User, two: User)
    returns (t: Trace)
    requires one.mode == two.mode == Transmitter && one.addresses == two.addresses == []
    ensures Run(t) && |t.steps| == 4
    ensures var s := t.states[4];
            && s.clients == map[c := one]
            && 0 in s.tasks && s.tasks[0].phase == Replying(ESME_ROK, true)
            && 1 in s.tasks && s.tasks[1].phase == Replying(ESME_ROK, true)
  {
    var b1, b2 := Bind(Transmitter, one.systemId, [], []), Bind(Transmitter, two.systemId, [], []);
    var s1 := ApplyCommand(STARTED, 0, c, 1, b1);
    var s2 := ApplyCommand(s1, 1, c, 2, b2);
    var s3 := ApplyValidated(s2, 0, LoginOk);
    var s4 := ApplyValidated(s3, 1, LoginOk);
    t := Trace([STARTED, s1, s2, s3, s4],
               [Command(0, c, 1, b1), Command(1, c, 2, b2), Validated(0, LoginOk), Validated(1, LoginOk)]);
  }

  // Keep-alive

  lemma {:induction false} StillDue(t: Trace, i: nat, j: nat, c: int)
    requires Run(t) && i <= j <= |t.steps| && c in t.states[i].due
    requires forall h | i <= h < j :: t.steps[h] != Alive(c) && t.steps[h] != Kick(c)
    ensures c in t.states[j].due
    decreases j - i
  {
    if i < j {
      StillDue(t, i, j - 1, c);
      assert Next(t.states[j - 1], t.steps[j - 1], t.states[j]);
    }
  }

  /** Between two rounds of the keep-alive thread every user that was bound at the first is asked. */
  lemma EveryoneIsAsked(t: Trace, i: nat, j: nat, c: int)
    requires Run(t) && i < j < |t.steps| && t.steps[i] == Collect && t.steps[j] == Collect && c in t.states[i].clients
    ensures exists h: nat :: i < h < j && (t.steps[h] == Alive(c) || t.steps[h] == Kick(c))
  {
    assert Next(t.states[i], t.steps[i], t.states[i + 1]) && Next(t.states[j], t.steps[j], t.states[j + 1]);
    if forall h: nat | i < h < j :: t.steps[h] != Alive(c) && t.steps[h] != Kick(c) {
      StillDue(t, i + 1, j, c);
    }
  }

  // Routing

  /** The connection that a message to the address goes to: the smallest one whose user owns it. */
  ghost predicate Routes(clients: map<int, User>, to: seq<byte>, c: int) {
    && c in clients && Owns(clients[c].addresses, to)
    && forall d | d in clients && Owns(clients[d].addresses, to) :: c <= d
  }

  /** In no run does a message go to a transmitter. */
  lemma NeverToTransmitter(t: Trace, k: nat, to: seq<byte>, c: int)
    requires Run(t) && k <= |t.steps| && Routes(t.states[k].clients, to, c)
    ensures t.states[k].clients[c].mode != Transmitter
  {
    RunKeeps(t, k);
  }
}
