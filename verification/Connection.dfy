/** CSMPPConnection: its fields, and the stretches of code between taking and releasing m_mutex, as protocol steps. */
module Connection {
  import opened Bytes
  import opened Params
  import opened Frames
  import opened Tokens
  import opened Pack
  import opened Unpack
  import opened RoundTrip
  import opened UnpackLoop
  import opened SendPdu
  import P = Protocol

  /** The call is in the table, under a number that the loop over the table has passed. */
  predicate FailedOutside(s: P.Conn, left: set<nat>, c: nat)
    requires c in s.calls
  {
    var n := s.calls[c].seqNo;
    n in s.pending && s.pending[n] == c && n !in left
  }

  /** From s to s' by three or four steps of the protocol: taking the mutex, sending, entering the table, waiting. */
  ghost predicate SendsAndWaits(s: P.Conn, c: nat, call: P.Call, s': P.Conn) {
    var begin := P.Begin(c, call.seqNo, call.responseId, call.status);
    var s1 := P.Apply(s, begin);
    var s2 := P.Apply(s1, P.SendSucceeds(c));
    var s3 := P.Apply(s2, P.Insert(c));
    P.Moves(s, begin, s1) && P.Moves(s1, P.SendSucceeds(c), s2) && P.Moves(s2, P.Insert(c), s3) && P.Moves(s3, P.Wait(c), s')
  }

  /** From s to s' by two steps: taking the mutex and failing to send. */
  ghost predicate FailsToSend(s: P.Conn, c: nat, call: P.Call, res: Result, s': P.Conn) {
    var begin := P.Begin(c, call.seqNo, call.responseId, call.status);
    var s1 := P.Apply(s, begin);
    P.Moves(s, begin, s1) && P.Moves(s1, P.SendFails(c, res), s')
  }

  lemma SameEntry(m: map<nat, P.Call>, c: nat, one: P.Call, two: P.Call)
    ensures m[c := one][c := two] == m[c := two]
  {
  }

  lemma FailedSend(s: P.Conn, c: nat, call: P.Call, res: Result, s': P.Conn)
    requires P.Possible(s, P.Begin(c, call.seqNo, call.responseId, call.status))
    requires call.phase == P.Locked && call.answer == None && (res == NetError || (s.open && res == SysError))
    requires s' == s.(calls := s.calls[c := call.(phase := P.Returned(res))])
    ensures FailsToSend(s, c, call, res, s')
  {
    assert s.calls[c := call][c := call.(phase := P.Returned(res))] == s'.calls;
  }

  lemma SentAndWaiting(s: P.Conn, c: nat, call: P.Call, s': P.Conn)
    requires P.Possible(s, P.Begin(c, call.seqNo, call.responseId, call.status)) && s.open
    requires call.phase == P.Locked && call.answer == None
    requires s' == s.(pending := s.pending[call.seqNo := c], calls := s.calls[c := call.(phase := P.Waiting)])
    ensures SendsAndWaits(s, c, call, s')
  {
    var s1 := P.Apply(s, P.Begin(c, call.seqNo, call.responseId, call.status));
    var s2 := P.Apply(s1, P.SendSucceeds(c));
    assert s2.calls == s.calls[c := call.(phase := P.Sent)];
    var s3 := P.Apply(s2, P.Insert(c));
    assert s3.calls == s.calls[c := call.(phase := P.Inserted)];
    var s4 := P.Apply(s3, P.Wait(c));
    assert s4.calls == s.calls[c := call.(phase := P.Waiting)];
  }

  class SmppConnection {
    var m_mutex: Option<nat>
    var m_connectionError: bool
    var m_closeRequested: bool
    var socketOpen: bool
    var reading: bool
    var m_pendingResponses: map<nat, nat>
    var calls: map<nat, P.Call>
    var wire: seq<seq<byte>>

    /** The state the protocol speaks of. */
    function View(): P.Conn
      reads this
    {
      P.Conn(m_mutex, m_connectionError, m_closeRequested, socketOpen, reading, m_pendingResponses, calls)
    }

    constructor ()
      ensures View() == P.CONNECTED && wire == []
    {
      m_mutex, m_connectionError, m_closeRequested := None, false, false;
      socketOpen, reading := true, true;
      m_pendingResponses, calls, wire := map[], map[], [];
    }

    method Close()
      modifies this
      ensures View() == P.CloseNow(old(View())) && wire == old(wire)
    {
      if m_closeRequested { return; }
      m_closeRequested := true;
      if socketOpen { socketOpen := false; }
      m_connectionError := false;
      m_pendingResponses := map[];
    }

    /** SendPDU: the octets go out whole, or nothing does. */
    method SendPdu(command: int, tt: Struct, writeThrows: bool) returns (res: Result)
      requires CommandTyped(command, tt)
      modifies this`wire
      ensures if res == ResultOk then
                && socketOpen && Packed(command, tt, LAST_SIZE).Some?
                && wire == old(wire) + [Packed(command, tt, LAST_SIZE).value]
              else wire == old(wire) && (res == NetError || (socketOpen && res == SysError))
    {
      var octets, attempts;
      res, octets, attempts := Send(command, tt, socketOpen, writeThrows);
      if res == ResultOk { wire := wire + [octets]; }
    }

    /**
     * SendRequest up to its wait: the mutex is taken, the PDU is written, and the table entry made before the wait
     * releases the mutex. A failing SendPDU returns at once.
     */
    method BeginRequest(c: nat, seqNo: nat, command: int, tt: Struct, status: int, writeThrows: bool)
        returns (res: Result)
      requires P.Possible(View(), P.Begin(c, seqNo, command + P.RESPONSE_BIT, status))
      requires CommandTyped(command, tt)
      modifies this
      ensures var call := P.Call(seqNo, command + P.RESPONSE_BIT, status, None, P.Locked);
              if res == ResultOk then
                && SendsAndWaits(old(View()), c, call, View())
                && Packed(command, tt, LAST_SIZE).Some?
                && wire == old(wire) + [Packed(command, tt, LAST_SIZE).value]
              else
                FailsToSend(old(View()), c, call, res, View()) && wire == old(wire)
    {
      ghost var s := View();
      var call := P.Call(seqNo, command + P.RESPONSE_BIT, status, None, P.Locked);
      m_mutex := Some(c);
      calls := calls[c := call];
      res := SendPdu(command, tt, writeThrows);
      if res != ResultOk {
        m_mutex := None;
        calls := calls[c := call.(phase := P.Returned(res))];
        SameEntry(s.calls, c, call, calls[c]);
        FailedSend(s, c, call, res, View());
        return;
      }
      m_pendingResponses := m_pendingResponses[seqNo := c];
      calls := calls[c := call.(phase := P.Waiting)];
      SameEntry(s.calls, c, call, calls[c]);
      m_mutex := None;
      SentAndWaiting(s, c, call, View());
    }

    /** SendRequest from where timed_wait has the mutex back. */
    method EndRequest(c: nat) returns (res: Result)
      requires P.Enabled(View(), P.Finish(c))
      modifies this
      ensures View() == P.Apply(old(View()), P.Finish(c)) && wire == old(wire)
      ensures View().calls[c].phase == P.Returned(res)
    {
      var call := calls[c];
      var timedOut := call.phase == P.Expired;
      m_pendingResponses := m_pendingResponses - {call.seqNo};
      if timedOut {
        res := Timeout;
      } else if m_connectionError {
        res := NetError;
      } else if call.status == P.NO_STATUS {
        res := InvResp;
      } else {
        res := ResultOk;
      }
      calls := calls[c := call.(phase := P.Returned(res))];
    }

    /** ReadHandler called with an error: every waiter is failed and woken, then the connection is closed. */
    method ReadHandlerError()
      requires P.Enabled(View(), P.ReadError) && P.Inv(View())
      modifies this
      ensures View() == P.Apply(old(View()), P.ReadError) && wire == old(wire)
    {
      ghost var s := View();
      reading := false;
      m_connectionError := true;
      FailPending(s);
      assert calls == P.FailAll(s);
      if !m_closeRequested {
        Close();
      }
    }

    /** The loop over m_pendingResponses: each command is failed and its condition notified. */
    method FailPending(ghost s: P.Conn)
      requires P.Inv(s) && m_pendingResponses == s.pending && calls == s.calls
      modifies this`calls
      ensures calls == P.FailAll(s)
    {
      var left := m_pendingResponses.Keys;
      while left != {}
        invariant left <= s.pending.Keys && calls.Keys == s.calls.Keys
        invariant forall c | c in s.calls ::
                    calls[c] == if FailedOutside(s, left, c) then P.Fail(s.calls[c]) else s.calls[c]
        decreases left
      {
        var n :| n in left;
        var c := m_pendingResponses[n];
        assert s.calls[c].seqNo == n;
        calls := calls[c := P.Fail(calls[c])];
        left := left - {n};
      }
      forall c | c in s.calls ensures FailedOutside(s, {}, c) <==> c in s.pending.Values {
        if c in s.pending.Values {
          var n :| n in s.pending && s.pending[n] == c;
          assert s.calls[c].seqNo == n;
        }
      }
    }

    /**
     * The catch branch of ReadHandler, when the body of a PDU cannot be read: the waiter that a response has is failed
     * and woken, and the connection is closed.
     */
    method ReadHandlerBodyFails(seqNumber: nat, commandId: int)
      requires P.Enabled(View(), P.ReadBodyFails(seqNumber, commandId)) && P.Inv(View())
      modifies this
      ensures View() == P.Apply(old(View()), P.ReadBodyFails(seqNumber, commandId)) && wire == old(wire)
    {
      reading := false;
      if !m_closeRequested {
        if commandId >= P.RESPONSE_BIT {
          var c := m_pendingResponses[seqNumber];
          calls := calls[c := P.Notify(calls[c].(status := P.NO_STATUS))];
        }
        Close();
      }
    }

    /** ReadHandler with a response: looked up by its number, cut, unpacked into the command, and its caller woken. */
    method ReadHandlerResponse(pdu: seq<byte>, leftover: int) returns (ghost st: P.Step)
      requires m_mutex.None? && reading && |pdu| >= 16 && FromBigEndian(pdu[4..8]) >= P.RESPONSE_BIT
      requires P.Inv(View())
      modifies this
      ensures st == P.ReadResponse(FromBigEndian(pdu[12..16]), FromBigEndian(pdu[4..8]), pdu, leftover)
      ensures P.Enabled(old(View()), st) && View() == P.Apply(old(View()), st) && wire == old(wire)
    {
      var commandId, seqNumber := FromBigEndian(pdu[4..8]), FromBigEndian(pdu[12..16]);
      st := P.ReadResponse(seqNumber, commandId, pdu, leftover);
      if seqNumber !in m_pendingResponses { return; }
      var c := m_pendingResponses[seqNumber];
      var call := calls[c];
      var ret, s := SmppUnpack(call.responseId, P.Trimmed(commandId, pdu));
      if ret != 0 || |s| < 4 || SlotNum(s[1]) != call.responseId {
        calls := calls[c := P.Fail(call.(responseId := leftover, answer := None))];
      } else {
        var answered := call.(status := SlotNum(s[2]), answer := Some(P.Answer(call.responseId, commandId, pdu)));
        calls := calls[c := P.Notify(answered)];
      }
    }
  }
}
