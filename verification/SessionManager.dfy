/** CSMPPUserManager: its table, and the stretches of code between taking and releasing m_mutex, as session steps. */
module SessionManager {
  import opened Bytes
  import opened Addresses
  import opened Sessions
  import SendPdu
  import Submit
  import Params
  import Frames

  lemma EmptyOrNot(s: set<int>)
    ensures s == {} || exists c :: c in s
  {
    if forall c :: c !in s { assert s == {}; }
  }

  lemma {:induction false} HasLeast(s: set<int>) returns (least: int)
    requires s != {}
    ensures least in s && forall d | d in s :: least <= d
    decreases |s|
  {
    EmptyOrNot(s);
    var c: int :| c in s;
    least := c;
    if s - {c} != {} {
      assert s == {c} + (s - {c});
      var rest := HasLeast(s - {c});
      if rest < c { least := rest; }
    }
  }

  class SmppUserManager {
    var m_clients: map<int, User>
    var tasks: map<nat, Task>
    var due: set<int>
    var log: seq<Event>

    /** The state that the steps speak of. */
    function View(): Manager
      reads this
    {
      Manager(m_clients, tasks, due, log)
    }

    constructor ()
      ensures View() == STARTED
    {
      m_clients, tasks, due, log := map[], map[], {}, [];
    }

    /** OnCommand without a command. The callback is called with the mutex held. */
    method OnNetworkError(conn: int) returns (keep: bool)
      modifies this
      ensures Next(old(View()), NetworkError(conn), View()) && !keep
    {
      if conn in m_clients {
        log := log + [Disconnected(conn, m_clients[conn].systemId, ByNetError), Removed(conn, ByNetError)];
        m_clients := m_clients - {conn};
      }
      return false;
    }

    /** OnCommand up to where it releases the mutex. */
    method OnCommand(t: nat, conn: int, seqNo: nat, cmd: Command)
      requires t !in tasks
      modifies this
      ensures Next(old(View()), Command(t, conn, seqNo, cmd), View())
    {
      var phase;
      if conn !in m_clients {
        if !cmd.Bind? {
          phase := Replying(ESME_RINVBNDSTS, false);
        } else {
          var addresses: Option<seq<Address>> := Some([]);
          if cmd.mode != Transmitter {
            addresses := ParseUserAddresses(cmd.range);
          }
          if addresses.None? {
            phase := Replying(ESME_RINVCMDID, false);
          } else {
            phase := Validating(User(cmd.systemId, cmd.mode, addresses.value));
          }
        }
      } else if cmd.Bind? {
        phase := Replying(ESME_RALYBND, true);
      } else {
        var user := m_clients[conn];
        if cmd.Unbind? {
          m_clients := m_clients - {conn};
          log := log + [Removed(conn, ByUnbind)];
          phase := Leaving(user);
        } else if cmd.SubmitSm? {
          phase := Submitting(user);
        } else if cmd.EnquireLink? {
          phase := Replying(ESME_ROK, true);
        } else {
          phase := Replying(ESME_RINVCMDID, true);
        }
      }
      tasks := tasks[t := Task(conn, seqNo, cmd, phase)];
    }

    method SetTaskPhase(t: nat, phase: Phase)
      requires t in tasks
      modifies this
      ensures View() == SetPhase(old(View()), t, phase)
    {
      tasks := tasks[t := tasks[t].(phase := phase)];
    }

    /** A bind once ValidateUser has returned and the mutex is taken again. */
    method OnValidated(t: nat, res: LoginResult)
      requires t in tasks && tasks[t].phase.Validating?
      modifies this
      ensures Next(old(View()), Validated(t, res), View())
    {
      var status;
      match res {
        case LoginOk => status := ESME_ROK;
        case LoginInvalidPwd => status := ESME_RINVPASWD;
        case LoginInvalidUsr => status := ESME_RINVSYSID;
        case _ => status := ESME_RBINDFAIL;
      }
      if status == ESME_ROK {
        var conn, user := tasks[t].conn, tasks[t].phase.user;
        if conn !in m_clients {
          m_clients := m_clients[conn := user];
          log := log + [Inserted(conn, user)];
        }
      }
      SetTaskPhase(t, Replying(status, status == ESME_ROK));
    }

    /** An unbind calls OnUserDisconnected with the mutex released. */
    method OnUnbound(t: nat)
      requires t in tasks && tasks[t].phase.Leaving?
      modifies this
      ensures Next(old(View()), Notified(t), View())
    {
      log := log + [Disconnected(tasks[t].conn, tasks[t].phase.user.systemId, ByUnbind)];
      SetTaskPhase(t, Replying(ESME_ROK, false));
    }

    /** A submission up to its call of DeliverMessage. */
    method CheckSubmission(t: nat)
      requires t in tasks && tasks[t].phase.Submitting? && tasks[t].cmd.SubmitSm?
      modifies this
      ensures Next(old(View()), Checked(t), View())
    {
      var user, conn := tasks[t].phase.user, tasks[t].conn;
      var SubmitSm(from, to, text) := tasks[t].cmd;
      if user.mode == Receiver {
        SetTaskPhase(t, Replying(ESME_RINVCMDID, true));
        return;
      }
      if user.mode != Transmitter {
        var owns := OwnsAddress(user.addresses, from);
        if !owns {
          SetTaskPhase(t, Replying(ESME_RINVSRCADR, true));
          return;
        }
        owns := OwnsAddress(user.addresses, to);
        if owns {
          SetTaskPhase(t, Replying(ESME_RINVDSTADR, true));
          return;
        }
      }
      log := log + [Delivered(conn, user, from, to, text)];
      SetTaskPhase(t, Delivering(user));
    }

    method OnDelivered(t: nat, res: DeliveryResult)
      requires t in tasks && tasks[t].phase.Delivering?
      modifies this
      ensures Next(old(View()), DeliveryReturns(t, res), View())
    {
      var status;
      match res {
        case DeliveryOk => status := ESME_ROK;
        case DeliveryRejected => status := ESME_RTHROTTLED;
        case DeliveryInvSrcAddr => status := ESME_RINVSRCADR;
        case DeliveryInvDestAddr => status := ESME_RINVDSTADR;
        case DeliveryUnknownError => status := ESME_RSYSERR;
      }
      SetTaskPhase(t, Replying(status, true));
    }

    /** The end of OnCommand: the response is sent, and the caller learns whether to keep the connection. */
    method Respond(t: nat) returns (keep: bool)
      requires t in tasks && tasks[t].phase.Replying?
      modifies this
      ensures Next(old(View()), Reply(t), View()) && keep == old(tasks)[t].phase.keep
    {
      var Replying(status, k) := tasks[t].phase;
      log := log + [Responded(t, tasks[t].conn, tasks[t].seqNo, status)];
      SetTaskPhase(t, Done(status, k));
      return k;
    }

    /** KeepAliveThread collects the users that it will ask. */
    method CollectUsers()
      requires due == {}
      modifies this
      ensures Next(old(View()), Collect, View())
    {
      due := m_clients.Keys;
    }

    /**
     * KeepAliveThread after one ENQUIRE_LINK, with what SendRequest returned and the status of its command. A user stays
     * that answered well, or to whom nothing could be packed; any other is erased, and nobody is told.
     */
    method OnEnquired(conn: int, res: SendPdu.Result, status: int)
      requires conn in due
      modifies this
      ensures var alive := (res == SendPdu.ResultOk || res == SendPdu.SysError) && status == 0x00;
              Next(old(View()), if alive then Alive(conn) else Kick(conn), View())
    {
      due := due - {conn};
      if (res != SendPdu.ResultOk && res != SendPdu.SysError) || status != ESME_ROK {
        if conn in m_clients {
          m_clients := m_clients - {conn};
          log := log + [Removed(conn, ByKeepAlive)];
        }
      }
    }

    /** The search of SendMessage, through the table in the order of its keys. */
    method FindConnection(to: seq<byte>) returns (r: Option<int>)
      ensures r.Some? ==> Routes(m_clients, to, r.value)
      ensures r.None? <==> forall c | c in m_clients :: !Owns(m_clients[c].addresses, to)
    {
      var rest := m_clients.Keys;
      while rest != {}
        invariant rest <= m_clients.Keys
        invariant forall c | c in m_clients && c !in rest :: !Owns(m_clients[c].addresses, to)
        decreases |rest|
      {
        ghost var least := HasLeast(rest);
        var c :| c in rest && forall d | d in rest :: c <= d;
        var owns := OwnsAddress(m_clients[c].addresses, to);
        if owns { return Some(c); }
        rest := rest - {c};
      }
      return None;
    }

    /**
     * SendMessage, for the encoded message: the deliver_sm command is built with the number that the connection issued,
     * sent over the connection and its answer read. What arrived is what the other end unpacks.
     */
    method SendMessage(from: seq<byte>, to: seq<byte>, message: seq<byte>, coding: nat, seqNo: nat)
        returns (r: DeliveryResult, conn: Option<int>, res: SendPdu.Result, status: int, arrived: Option<Frames.Struct>)
      requires Params.Passes(Params.SequenceNumber, seqNo) && seqNo < 0x1_0000_0000
      ensures conn.Some? ==> Routes(m_clients, to, conn.value)
      ensures conn == None <==> forall c | c in m_clients :: !Owns(m_clients[c].addresses, to)
      ensures r == DeliveryInvDestAddr <==> conn == None
      ensures r == DeliveryUnknownError <==> conn.Some? && res != SendPdu.ResultOk
      ensures r == DeliveryRejected <==> conn.Some? && res == SendPdu.ResultOk && status != ESME_ROK
      ensures r == DeliveryOk <==> conn.Some? && res == SendPdu.ResultOk && status == ESME_ROK
      ensures conn.Some? && res == SendPdu.ResultOk ==>
                && |message| != Submit.MAX_SHORT && arrived.Some?
                && arrived == Submit.ReceivedSegment(Params.DELIVER_SM, seqNo, from, to, coding, message, None)
                && var a := arrived.value;
                && Submit.GetText(a) == Submit.KeptText(message)
                && Submit.GetString(a, Submit.SOURCE_ADDR) == Submit.Printed(from, 21)
                && Submit.GetString(a, Submit.DESTINATION_ADDR) == Submit.Printed(to, 21)
    {
      res, status, arrived := SendPdu.NetError, ESME_ROK, None;
      conn := FindConnection(to);
      if conn.None? { return DeliveryInvDestAddr, None, res, status, arrived; }
      var cmd := new Submit.MessageCommand(Params.DELIVER_SM, seqNo);
      cmd.SetSourceAddress(from, 0, 0);
      cmd.SetDestination(to, 0, 0);
      cmd.SetDataCoding(coding);
      cmd.SetText(message);
      Built(seqNo, from, to, coding, message);
      Submit.SegmentArrives(Params.DELIVER_SM, seqNo, from, to, coding, message, None);
      res, status, arrived := Submit.SendRequest(Params.DELIVER_SM, cmd.request);
      if res != SendPdu.ResultOk { return DeliveryUnknownError, conn, res, status, arrived; }
      if status != ESME_ROK { return DeliveryRejected, conn, res, status, arrived; }
      return DeliveryOk, conn, res, status, arrived;
    }
  }

  /** The setters touch different fields, so their order does not matter. */
  lemma Built(seqNo: nat, from: seq<byte>, to: seq<byte>, coding: nat, text: seq<byte>)
    ensures var s := Submit.Fresh(Params.DELIVER_SM, seqNo);
            Submit.WithText(Submit.WithCoding(Submit.WithDestination(Submit.WithSource(s, from, 0, 0), to, 0, 0), coding), text)
            == Submit.Segment(Params.DELIVER_SM, seqNo, from, to, coding, text, None)
  {
  }
}
