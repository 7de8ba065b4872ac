/**
 * The request protocol of smppconnection.cpp as atomic steps between the points where m_mutex is taken and released.
 * Many callers are inside SendRequest at once; one reader handles what the socket delivers.
 */
module Protocol {
  import opened Bytes
  import opened Params
  import opened Frames
  import opened Tokens
  import opened Pack
  import opened Unpack
  import opened RoundTrip
  import opened SendPdu
  import SN = SequenceNumbers

  const NO_STATUS := -1

  // What arrives

  /** A response to SUBMIT_SM (or any id with its bit) is cut behind its first string, and its length rewritten. */
  function Trimmed(commandId: int, pdu: seq<byte>): seq<byte> {
    if (commandId / SUBMIT_SM) % 2 == 1 && |pdu| >= 16 then
      var nul := NulFrom(pdu, 16);
      if nul < |pdu| - 1 then WithLength(pdu[..nul + 1]) else pdu
    else pdu
  }

  /** unpack_response: the decoded status, or None for an error, a wrong command id included. */
  function DecodedStatus(responseId: int, commandId: int, pdu: seq<byte>): Option<nat> {
    match Unpacked(responseId, Trimmed(commandId, pdu))
    case None => None
    case Some(s) => if |s| >= 4 && SlotNum(s[1]) == responseId then Some(SlotNum(s[2])) else None
  }

  // The state

  /** Where a call of SendRequest is. From Locked to Inserted it holds the mutex. */
  datatype Phase = Locked | Sent | Inserted | Waiting | Notified | Expired | Returned(res: Result)

  /** A decoded response: the id it was decoded as, and what arrived. */
  datatype Answer = Answer(responseId: int, commandId: int, pdu: seq<byte>)

  /** A call and the part of its command that the reader writes. */
  datatype Call = Call(seqNo: nat, responseId: int, status: int, answer: Option<Answer>, phase: Phase)

  /** The fields of the connection; pending is m_pendingResponses, from sequence number to call. */
  datatype Conn = Conn(lock: Option<nat>, error: bool, closing: bool, open: bool, reading: bool,
                       pending: map<nat, nat>, calls: map<nat, Call>)

  datatype Step =
    | Begin(c: nat, seqNo: nat, responseId: int, status: int)
    | SendSucceeds(c: nat)
    | SendFails(c: nat, res: Result)
    | Insert(c: nat)
    | Wait(c: nat)
    | Expire(c: nat)
    | Finish(c: nat)
    | ReadError
    | ReadResponse(seqNo: nat, commandId: int, pdu: seq<byte>, leftover: int)
    | ReadBodyFails(seqNo: nat, commandId: int)
    | ReadRequest
    | Close

  predicate InPhase(s: Conn, c: nat, p: Phase) {
    c in s.calls && s.calls[c].phase == p
  }

  predicate Unreturned(s: Conn, c: nat) {
    c in s.calls && !s.calls[c].phase.Returned?
  }

  /** No call under way uses the number; CounterRunsAreRuns says when numbers of the counter are such. */
  ghost predicate FreshNumber(s: Conn, seqNo: nat) {
    forall c | Unreturned(s, c) :: s.calls[c].seqNo != seqNo
  }

  const RESPONSE_BIT := 0x8000_0000

  /** A PDU whose header has the given command id and sequence number. */
  predicate HasHeader(pdu: seq<byte>, commandId: int, seqNo: nat) {
    |pdu| >= 16 && FromBigEndian(pdu[4..8]) == commandId && FromBigEndian(pdu[12..16]) == seqNo
  }

  /** The state lets some thread take the step. */
  ghost predicate Possible(s: Conn, st: Step) {
    match st
    case Begin(c, _, _, _) => s.lock.None? && c !in s.calls
    case SendSucceeds(c) => s.lock == Some(c) && InPhase(s, c, Locked) && s.open
    case SendFails(c, res) =>
      s.lock == Some(c) && InPhase(s, c, Locked) && (res == NetError || (s.open && res == SysError))
    case Insert(c) => s.lock == Some(c) && InPhase(s, c, Sent)
    case Wait(c) => s.lock == Some(c) && InPhase(s, c, Inserted)
    case Expire(c) => InPhase(s, c, Waiting)
    case Finish(c) => s.lock.None? && (InPhase(s, c, Notified) || InPhase(s, c, Expired))
    case ReadError => s.lock.None? && s.reading
    case ReadResponse(seqNo, commandId, pdu, _) =>
      s.lock.None? && s.reading && HasHeader(pdu, commandId, seqNo) && commandId >= RESPONSE_BIT
    case ReadBodyFails(seqNo, commandId) =>
      s.lock.None? && s.reading && (s.closing || commandId < RESPONSE_BIT || seqNo in s.pending)
    case ReadRequest => s.lock.None? && s.reading
    case Close => s.lock.None?
  }

  /** A step of a run: a new request has a fresh number. */
  ghost predicate Enabled(s: Conn, st: Step) {
    Possible(s, st) && (st.Begin? ==> FreshNumber(s, st.seqNo))
  }

  // The steps

  function SetPhase(s: Conn, c: nat, p: Phase): Conn
    requires c in s.calls
  {
    s.(calls := s.calls[c := s.calls[c].(phase := p)])
  }

  /** notify_one on the call's condition: only a thread inside timed_wait is woken. */
  function Notify(call: Call): Call {
    if call.phase == Waiting then call.(phase := Notified) else call
  }

  function Fail(call: Call): Call {
    Notify(call.(status := NO_STATUS))
  }

  /** Every call in the table is failed. */
  function FailAll(s: Conn): map<nat, Call> {
    map c | c in s.calls :: if c in s.pending.Values then Fail(s.calls[c]) else s.calls[c]
  }

  /** CSMPPConnection::Close, with the mutex held. */
  function CloseNow(s: Conn): Conn {
    if s.closing then s else s.(closing := true, open := false, error := false, pending := map[])
  }

  /** What SendRequest returns once it has the mutex back. */
  function ResultOf(s: Conn, call: Call): Result {
    if call.phase == Expired then Timeout
    else if s.error then NetError
    else if call.status == NO_STATUS then InvResp
    else ResultOk
  }

  /** The call after the response has been unpacked into its command; leftover is what a failed unpack left there. */
  function Respond(call: Call, commandId: int, pdu: seq<byte>, leftover: int): Call {
    match DecodedStatus(call.responseId, commandId, pdu)
    case None => Fail(call.(responseId := leftover, answer := None))
    case Some(status) =>
      Notify(call.(status := status, answer := Some(Answer(call.responseId, commandId, pdu))))
  }

  function Apply(s: Conn, st: Step): Conn {
    match st
    case Begin(c, seqNo, responseId, status) =>
      s.(lock := Some(c), calls := s.calls[c := Call(seqNo, responseId, status, None, Locked)])
    case SendSucceeds(c) => if c in s.calls then SetPhase(s, c, Sent) else s
    case SendFails(c, res) => if c in s.calls then SetPhase(s, c, Returned(res)).(lock := None) else s
    case Insert(c) =>
      if c in s.calls then SetPhase(s, c, Inserted).(pending := s.pending[s.calls[c].seqNo := c]) else s
    case Wait(c) => if c in s.calls then SetPhase(s, c, Waiting).(lock := None) else s
    case Expire(c) => if c in s.calls then SetPhase(s, c, Expired) else s
    case Finish(c) =>
      if c in s.calls then
        SetPhase(s, c, Returned(ResultOf(s, s.calls[c]))).(pending := s.pending - {s.calls[c].seqNo})
      else s
    case ReadError =>
      CloseNow(s.(error := true, reading := false, calls := FailAll(s)))
    case ReadResponse(seqNo, commandId, pdu, leftover) =>
      if seqNo in s.pending && s.pending[seqNo] in s.calls then
        var c := s.pending[seqNo];
        s.(calls := s.calls[c := Respond(s.calls[c], commandId, pdu, leftover)])
      else s
    case ReadBodyFails(seqNo, commandId) => FailBody(s.(reading := false), seqNo, commandId)
    case ReadRequest => s
    case Close => CloseNow(s)
  }

  /** The catch branch of the reader: only the addressed call is failed before the connection is closed. */
  function FailBody(s: Conn, seqNo: nat, commandId: int): Conn {
    if s.closing then s
    else if commandId >= RESPONSE_BIT && seqNo in s.pending && s.pending[seqNo] in s.calls then
      var c := s.pending[seqNo];
      CloseNow(s.(calls := s.calls[c := Fail(s.calls[c])]))
    else CloseNow(s)
  }

  // Runs

  /** A connection that is open and reading, before its first request. */
  const CONNECTED := Conn(None, false, false, true, true, map[], map[])

  ghost predicate Next(s: Conn, st: Step, s': Conn) {
    Enabled(s, st) && s' == Apply(s, st)
  }

  /** What the code does, whatever the number of a new request. */
  ghost predicate Moves(s: Conn, st: Step, s': Conn) {
    Possible(s, st) && s' == Apply(s, st)
  }

  /** A run: a state before each step and one after the last. */
  datatype Trace = Trace(states: seq<Conn>, steps: seq<Step>)

  ghost predicate Run(t: Trace) {
    && |t.states| == |t.steps| + 1
    && t.states[0] == CONNECTED
    && forall k | 0 <= k < |t.steps| :: Next(t.states[k], t.steps[k], t.states[k + 1])
  }

  // What every step keeps

  ghost predicate CallOk(s: Conn, c: nat)
    requires c in s.calls
  {
    var call := s.calls[c];
    // the mutex is held from the send to the wait
    && (call.phase in {Locked, Sent, Inserted} ==> s.lock == Some(c))
    // sent and not returned: in the map, unless Close has cleared it
    && (call.phase in {Inserted, Waiting, Notified, Expired} && !s.closing ==>
          call.seqNo in s.pending && s.pending[call.seqNo] == c)
    && (call.phase == Sent ==> !s.closing)
    // woken: failed, or answered
    && (call.phase == Notified ==> call.status == NO_STATUS || call.answer.Some?)
    && (call.answer.Some? && call.status != NO_STATUS ==>
          var a := call.answer.value;
          DecodedStatus(a.responseId, a.commandId, a.pdu) == Some(call.status))
    && (call.phase == Returned(ResultOk) ==> call.answer.Some? && call.status != NO_STATUS)
  }

  ghost predicate Inv(s: Conn) {
    && (s.open <==> !s.closing)
    && (s.error ==> s.closing)
    && (s.closing ==> s.pending == map[])
    && (forall n | n in s.pending :: s.pending[n] in s.calls && s.calls[s.pending[n]].seqNo == n)
    && (forall n | n in s.pending :: s.calls[s.pending[n]].phase in {Inserted, Waiting, Notified, Expired})
    && (forall c | c in s.calls :: CallOk(s, c))
    && (forall c, d | Unreturned(s, c) && Unreturned(s, d) && c != d :: s.calls[c].seqNo != s.calls[d].seqNo)
  }

  lemma NotifyKeeps(s: Conn, s': Conn, c: nat)
    requires c in s.calls && CallOk(s, c) && c in s'.calls && s'.calls[c] == Fail(s.calls[c])
    requires s'.lock == s.lock && s.lock.None? && s'.closing && !s.calls[c].phase.Returned?
    ensures CallOk(s', c)
  {
  }

  lemma CloseKeeps(s: Conn)
    requires Inv(s) && s.lock.None?
    ensures Inv(CloseNow(s))
  {
    var s' := CloseNow(s);
    forall c | c in s'.calls ensures CallOk(s', c) {
      assert CallOk(s, c);
    }
  }

  lemma ReadErrorKeeps(s: Conn)
    requires Inv(s) && Enabled(s, ReadError)
    ensures Inv(Apply(s, ReadError))
  {
    var s' := Apply(s, ReadError);
    forall c | c in s'.calls ensures CallOk(s', c) {
      assert CallOk(s, c);
      if c in s.pending.Values {
        var n :| n in s.pending && s.pending[n] == c;
        NotifyKeeps(s, s', c);
      }
    }
    forall c, d | Unreturned(s', c) && Unreturned(s', d) && c != d ensures s'.calls[c].seqNo != s'.calls[d].seqNo {
      assert Unreturned(s, c) && Unreturned(s, d);
    }
  }

  lemma ReadResponseKeeps(s: Conn, seqNo: nat, commandId: int, pdu: seq<byte>, leftover: int)
    requires Inv(s) && Enabled(s, ReadResponse(seqNo, commandId, pdu, leftover))
    ensures Inv(Apply(s, ReadResponse(seqNo, commandId, pdu, leftover)))
  {
    var s' := Apply(s, ReadResponse(seqNo, commandId, pdu, leftover));
    if seqNo in s.pending {
      var r := s.pending[seqNo];
      assert CallOk(s, r);
      forall c | c in s'.calls ensures CallOk(s', c) {
        assert CallOk(s, c);
      }
      forall c, d | Unreturned(s', c) && Unreturned(s', d) && c != d ensures s'.calls[c].seqNo != s'.calls[d].seqNo {
        assert Unreturned(s, c) && Unreturned(s, d);
      }
    }
  }

  lemma ReadBodyFailsKeeps(s: Conn, seqNo: nat, commandId: int)
    requires Inv(s) && Enabled(s, ReadBodyFails(seqNo, commandId))
    ensures Inv(Apply(s, ReadBodyFails(seqNo, commandId)))
  {
    var s' := Apply(s, ReadBodyFails(seqNo, commandId));
    forall c | c in s'.calls ensures CallOk(s', c) {
      assert CallOk(s, c);
    }
    forall c, d | Unreturned(s', c) && Unreturned(s', d) && c != d ensures s'.calls[c].seqNo != s'.calls[d].seqNo {
      assert Unreturned(s, c) && Unreturned(s, d);
    }
  }

  lemma FinishKeeps(s: Conn, c: nat)
    requires Inv(s) && Enabled(s, Finish(c))
    ensures Inv(Apply(s, Finish(c)))
  {
    var s' := Apply(s, Finish(c));
    forall d | d in s'.calls ensures CallOk(s', d) {
      assert CallOk(s, d) && CallOk(s, c);
      if d != c && Unreturned(s, d) { assert s.calls[d].seqNo != s.calls[c].seqNo; }
    }
    forall n | n in s'.pending ensures s'.calls[s'.pending[n]] == s.calls[s.pending[n]] {
      assert s.calls[s.pending[n]].seqNo == n;
    }
    forall d, e | Unreturned(s', d) && Unreturned(s', e) && d != e ensures s'.calls[d].seqNo != s'.calls[e].seqNo {
      assert Unreturned(s, d) && Unreturned(s, e);
    }
  }

  lemma InsertKeeps(s: Conn, c: nat)
    requires Inv(s) && Enabled(s, Insert(c))
    ensures Inv(Apply(s, Insert(c)))
  {
    var s' := Apply(s, Insert(c));
    forall d | d in s'.calls ensures CallOk(s', d) {
      assert CallOk(s, d) && CallOk(s, c);
      if d != c && Unreturned(s, d) { assert Unreturned(s, c) && s.calls[d].seqNo != s.calls[c].seqNo; }
    }
    forall d, e | Unreturned(s', d) && Unreturned(s', e) && d != e ensures s'.calls[d].seqNo != s'.calls[e].seqNo {
      assert Unreturned(s, d) && Unreturned(s, e);
    }
  }

  /** A step that changes one call, and the lock, in a way that suits that call. */
  lemma OneCallKeeps(s: Conn, s': Conn, c: nat, call: Call)
    requires Inv(s) && s' == s.(lock := s'.lock, calls := s.calls[c := call]) && CallOk(s', c)
    requires forall d | d in s.calls && d != c && s.calls[d].phase in {Locked, Sent, Inserted} :: s'.lock == Some(d)
    requires c in s.calls ==> call.seqNo == s.calls[c].seqNo && (s.calls[c].phase.Returned? ==> call.phase.Returned?)
    requires c in s.calls && c in s.pending.Values ==> call.phase in {Inserted, Waiting, Notified, Expired}
    requires c !in s.calls ==> FreshNumber(s, call.seqNo)
    ensures Inv(s')
  {
    forall d | d in s'.calls ensures CallOk(s', d) {
      if d != c { assert CallOk(s, d); }
    }
    forall d, e | Unreturned(s', d) && Unreturned(s', e) && d != e ensures s'.calls[d].seqNo != s'.calls[e].seqNo {
      if d in s.calls { assert Unreturned(s, d); }
      if e in s.calls { assert Unreturned(s, e); }
    }
    forall n | n in s'.pending ensures s'.pending[n] in s'.calls {
      assert s.pending[n] in s.pending.Values;
    }
  }

  lemma CallerKeeps(s: Conn, st: Step)
    requires Inv(s) && Enabled(s, st)
    requires st.Begin? || st.SendSucceeds? || st.SendFails? || st.Wait? || st.Expire?
    ensures Inv(Apply(s, st))
  {
    var s' := Apply(s, st);
    if st.c in s.calls { assert CallOk(s, st.c); }
    forall d | d in s.calls && d != st.c ensures s.calls[d].phase in {Locked, Sent, Inserted} ==> s'.lock == Some(d) {
      assert CallOk(s, d);
    }
    if st.c in s.calls && st.c in s.pending.Values {
      var n :| n in s.pending && s.pending[n] == st.c;
    }
    OneCallKeeps(s, s', st.c, s'.calls[st.c]);
  }

  lemma StepKeeps(s: Conn, st: Step, s': Conn)
    requires Inv(s) && Next(s, st, s')
    ensures Inv(s')
  {
    match st
    case Insert(c) => InsertKeeps(s, c);
    case Finish(c) => FinishKeeps(s, c);
    case ReadError => ReadErrorKeeps(s);
    case ReadResponse(seqNo, commandId, pdu, leftover) => ReadResponseKeeps(s, seqNo, commandId, pdu, leftover);
    case ReadBodyFails(seqNo, commandId) => ReadBodyFailsKeeps(s, seqNo, commandId);
    case ReadRequest =>
    case Close => CloseKeeps(s);
    case _ => CallerKeeps(s, st);
  }

  /** Every state of every run satisfies the invariant. */
  lemma {:induction false} RunKeeps(t: Trace, k: nat)
    requires Run(t) && k <= |t.steps|
    ensures Inv(t.states[k])
  {
    if k > 0 {
      RunKeeps(t, k - 1);
      assert Next(t.states[k - 1], t.steps[k - 1], t.states[k]);
      StepKeeps(t.states[k - 1], t.steps[k - 1], t.states[k]);
    }
  }

  // What callers are told

  /**
   * Whenever the reader can have the mutex, a request that was sent and has not returned is in the table, unless Close
   * has run: the mutex is held from the send to the wait.
   */
  lemma NoLostResponse(t: Trace, k: nat, c: nat)
    requires Run(t) && k <= |t.steps|
    requires var s := t.states[k]; Unreturned(s, c) && s.lock.None? && !s.closing
    ensures var s := t.states[k];
            && s.calls[c].seqNo in s.pending && s.pending[s.calls[c].seqNo] == c
            && s.calls[c].phase in {Waiting, Notified, Expired}
  {
    RunKeeps(t, k);
    assert CallOk(t.states[k], c);
  }

  /** The step that put the answer there. */
  predicate Answers(st: Step, seqNo: nat, a: Answer) {
    st.ReadResponse? && st.seqNo == seqNo && st.commandId == a.commandId && st.pdu == a.pdu
  }

  /** The answer was read as the response with the number, after the call had entered the table. */
  ghost predicate ReadSinceInsert(t: Trace, k: nat, c: nat, seqNo: nat, a: Answer)
    requires k <= |t.steps|
  {
    exists h: nat, i: nat :: h < i < k && t.steps[h] == Insert(c) && Answers(t.steps[i], seqNo, a)
  }

  lemma TableStep(s: Conn, st: Step, s': Conn, n: nat)
    requires Next(s, st, s') && n in s'.pending
    ensures st == Insert(s'.pending[n]) || (n in s.pending && s.pending[n] == s'.pending[n])
  {
  }

  lemma {:induction false} InTableSinceInsert(t: Trace, k: nat, n: nat)
    requires Run(t) && k <= |t.steps| && n in t.states[k].pending
    ensures exists h: nat :: h < k && t.steps[h] == Insert(t.states[k].pending[n])
  {
    if k > 0 {
      var s := t.states[k - 1];
      assert Next(s, t.steps[k - 1], t.states[k]);
      TableStep(s, t.steps[k - 1], t.states[k], n);
      if t.steps[k - 1] != Insert(t.states[k].pending[n]) {
        InTableSinceInsert(t, k - 1, n);
      }
    }
  }

  lemma AnswerStep(s: Conn, st: Step, s': Conn, c: nat)
    requires Inv(s) && Next(s, st, s') && c in s'.calls && s'.calls[c].answer.Some?
    ensures var call := s'.calls[c];
            || (c in s.calls && s.calls[c].answer == call.answer && s.calls[c].seqNo == call.seqNo)
            || (Answers(st, call.seqNo, call.answer.value)
                && call.seqNo in s.pending && s.pending[call.seqNo] == c
                && HasHeader(call.answer.value.pdu, call.answer.value.commandId, call.seqNo))
  {
    if st.ReadResponse? {
      if st.seqNo in s.pending {
        AnswerOf(s, st.seqNo, st.commandId, st.pdu, st.leftover);
      }
    } else if st.ReadBodyFails? {
    } else {
      AnswerKept(s, st, s', c);
    }
  }

  lemma AnswerOf(s: Conn, seqNo: nat, commandId: int, pdu: seq<byte>, leftover: int)
    requires Inv(s) && seqNo in s.pending
    ensures var was := s.calls[s.pending[seqNo]];
            var call := Respond(was, commandId, pdu, leftover);
            && was.seqNo == call.seqNo == seqNo
            && (call.answer.Some? ==> call.answer.value.commandId == commandId && call.answer.value.pdu == pdu)
  {
  }

  lemma AnswerKept(s: Conn, st: Step, s': Conn, c: nat)
    requires Inv(s) && Next(s, st, s') && !st.ReadResponse? && !st.ReadBodyFails?
    requires c in s'.calls && s'.calls[c].answer.Some?
    ensures c in s.calls && s.calls[c].answer == s'.calls[c].answer && s.calls[c].seqNo == s'.calls[c].seqNo
  {
  }

  lemma {:induction false} AnswerWasRead(t: Trace, k: nat, c: nat)
    requires Run(t) && k <= |t.steps| && c in t.states[k].calls && t.states[k].calls[c].answer.Some?
    ensures var call := t.states[k].calls[c];
            ReadSinceInsert(t, k, c, call.seqNo, call.answer.value)
            && HasHeader(call.answer.value.pdu, call.answer.value.commandId, call.seqNo)
  {
    if k > 0 {
      var s, call := t.states[k - 1], t.states[k].calls[c];
      RunKeeps(t, k - 1);
      AnswerStep(s, t.steps[k - 1], t.states[k], c);
      if c in s.calls && s.calls[c].answer == call.answer && s.calls[c].seqNo == call.seqNo {
        AnswerWasRead(t, k - 1, c);
      } else {
        InTableSinceInsert(t, k - 1, call.seqNo);
      }
    }
  }

  /**
   * SendRequest returns RESULT_OK only for an answer: a PDU that was read, after this very call had entered the table,
   * as the response with its number, that was decoded without error, and whose status is the one the caller sees.
   */
  lemma Correlation(t: Trace, k: nat, c: nat)
    requires Run(t) && k <= |t.steps| && InPhase(t.states[k], c, Returned(ResultOk))
    ensures var call := t.states[k].calls[c];
            && call.answer.Some?
            && var a := call.answer.value;
            && ReadSinceInsert(t, k, c, call.seqNo, a) && HasHeader(a.pdu, a.commandId, call.seqNo)
            && DecodedStatus(a.responseId, a.commandId, a.pdu) == Some(call.status)
  {
    RunKeeps(t, k);
    assert CallOk(t.states[k], c);
    AnswerWasRead(t, k, c);
  }

  /** The call is past its wait or in it, and the table does not know it: only its own steps change it. */
  ghost predicate OutOfTable(s: Conn, c: nat) {
    c in s.calls && c !in s.pending.Values && s.calls[c].phase !in {Locked, Sent, Inserted}
  }

  lemma OutOfTableStays(s: Conn, st: Step, s': Conn, c: nat)
    requires Inv(s) && Next(s, st, s') && OutOfTable(s, c)
    ensures OutOfTable(s', c)
    ensures s'.calls[c]
            == if st == Expire(c) then s.calls[c].(phase := Expired)
               else if st == Finish(c) then s.calls[c].(phase := Returned(ResultOf(s, s.calls[c])))
               else s.calls[c]
  {
  }

  /** What a call can still become once the table does not know it and nothing is read any more. */
  predicate Ends(was: Call, now: Call) {
    && now == was.(phase := now.phase)
    && match was.phase
       case Waiting => now.phase in {Waiting, Expired, Returned(Timeout)}
       case Notified => now.phase in {Notified, Returned(if was.status == NO_STATUS then InvResp else ResultOk)}
       case Expired => now.phase in {Expired, Returned(Timeout)}
       case _ => now.phase == was.phase
  }

  /** A connection that reads no more and has no error to tell of. */
  predicate Quiet(s: Conn) {
    s.closing && !s.error && !s.reading
  }

  /** A call that the table does not know any more, and what it has become since nothing is read. */
  ghost predicate Settled(s: Conn, c: nat, was: Call) {
    Quiet(s) && OutOfTable(s, c) && Ends(was, s.calls[c])
  }

  lemma SettledAtFirst(s: Conn, c: nat)
    requires Quiet(s) && OutOfTable(s, c)
    ensures Settled(s, c, s.calls[c])
  {
  }

  lemma SettledStep(s: Conn, st: Step, s': Conn, c: nat, was: Call)
    requires Inv(s) && Next(s, st, s') && Settled(s, c, was)
    ensures Settled(s', c, was)
  {
    OutOfTableStays(s, st, s', c);
  }

  lemma {:induction false} StaysSettled(t: Trace, i: nat, j: nat, c: nat, was: Call)
    requires Run(t) && i <= j <= |t.steps| && Settled(t.states[i], c, was)
    ensures Settled(t.states[j], c, was)
    decreases j - i
  {
    if i < j {
      StaysSettled(t, i, j - 1, c, was);
      SettledNext(t, j - 1, c, was);
    }
  }

  lemma SettledNext(t: Trace, k: nat, c: nat, was: Call)
    requires Run(t) && k < |t.steps| && Settled(t.states[k], c, was)
    ensures Settled(t.states[k + 1], c, was)
  {
    RunKeeps(t, k);
    assert Next(t.states[k], t.steps[k], t.states[k + 1]);
    SettledStep(t.states[k], t.steps[k], t.states[k + 1], c, was);
  }

  lemma InTablePhase(s: Conn, c: nat)
    requires Inv(s) && s.lock.None? && c in s.pending.Values
    ensures c in s.calls && s.calls[c].phase in {Waiting, Notified, Expired} && !s.closing && !s.error
  {
    var n :| n in s.pending && s.pending[n] == c;
    assert CallOk(s, c);
  }

  /**
   * Every request in the table when a read error is handled waits no longer: unless it had expired already it can only
   * end with RESULT_INVRESP, even if its response had been decoded and not yet seen by its caller.
   */
  lemma FailureReachesEveryWaiter(t: Trace, i: nat, j: nat, c: nat)
    requires Run(t) && i < j <= |t.steps| && t.steps[i] == ReadError
    requires c in t.states[i].pending.Values
    ensures c in t.states[i].calls && c in t.states[j].calls
    ensures t.states[j].calls[c].phase
            in if t.states[i].calls[c].phase == Expired then {Expired, Returned(Timeout)}
               else {Notified, Returned(InvResp)}
  {
    RunKeeps(t, i);
    assert Next(t.states[i], t.steps[i], t.states[i + 1]);
    InTablePhase(t.states[i], c);
    SettledAtFirst(t.states[i + 1], c);
    StaysSettled(t, i + 1, j, c, t.states[i + 1].calls[c]);
  }

  /**
   * When the body of a PDU cannot be read, only the call that it answers is failed. Of the other calls in the table
   * one that waits can only time out, and one that has been woken still returns what it was woken for.
   */
  lemma BodyFailureReachesOne(t: Trace, i: nat, j: nat, c: nat)
    requires Run(t) && i < j <= |t.steps| && t.steps[i].ReadBodyFails?
    requires c in t.states[i].pending.Values
    ensures c in t.states[i].calls && c in t.states[j].calls
    ensures var was, now := t.states[i].calls[c], t.states[j].calls[c];
            var addressed := t.steps[i].commandId >= RESPONSE_BIT && was.seqNo == t.steps[i].seqNo;
            now.phase
            in if was.phase == Expired then {Expired, Returned(Timeout)}
               else if addressed then {Notified, Returned(InvResp)}
               else if was.phase == Waiting then {Waiting, Expired, Returned(Timeout)}
               else {Notified, Returned(if was.status == NO_STATUS then InvResp else ResultOk)}
  {
    RunKeeps(t, i);
    var s := t.states[i];
    assert Next(s, t.steps[i], t.states[i + 1]);
    InTablePhase(s, c);
    var n :| n in s.pending && s.pending[n] == c;
    assert s.calls[c].seqNo == n;
    SettledAtFirst(t.states[i + 1], c);
    StaysSettled(t, i + 1, j, c, t.states[i + 1].calls[c]);
  }

  /** A call that nobody will wake. */
  ghost predicate Abandoned(s: Conn, c: nat) {
    OutOfTable(s, c) && s.calls[c].phase in {Waiting, Expired, Returned(Timeout)}
  }

  lemma AbandonedStep(s: Conn, st: Step, s': Conn, c: nat)
    requires Inv(s) && Next(s, st, s') && Abandoned(s, c)
    ensures Abandoned(s', c)
  {
    OutOfTableStays(s, st, s', c);
  }

  lemma {:induction false} StaysAbandoned(t: Trace, i: nat, j: nat, c: nat)
    requires Run(t) && i <= j <= |t.steps| && Abandoned(t.states[i], c)
    ensures Abandoned(t.states[j], c)
    decreases j - i
  {
    if i < j {
      StaysAbandoned(t, i, j - 1, c);
      RunKeeps(t, j - 1);
      AbandonedStep(t.states[j - 1], t.steps[j - 1], t.states[j], c);
    }
  }

  /** A request that Close finds unanswered can only time out: nobody wakes it. */
  lemma CloseAbandons(t: Trace, i: nat, j: nat, c: nat)
    requires Run(t) && i < j <= |t.steps| && t.steps[i] == Close
    requires !t.states[i].closing && InPhase(t.states[i], c, Waiting)
    ensures var s := t.states[j]; c in s.calls && s.calls[c].phase in {Waiting, Expired, Returned(Timeout)}
  {
    assert Next(t.states[i], t.steps[i], t.states[i + 1]);
    assert Abandoned(t.states[i + 1], c);
    StaysAbandoned(t, i + 1, j, c);
  }

  lemma ClosingStep(s: Conn, st: Step, s': Conn)
    requires Next(s, st, s') && s'.closing && s'.reading && st != Close
    ensures s.closing && s.reading
  {
  }

  /** A connection that is closing and still reads was closed by a call of Close. */
  lemma {:induction false} ClosedByCaller(t: Trace, k: nat)
    requires Run(t) && k <= |t.steps| && t.states[k].closing && t.states[k].reading
    ensures exists i: nat :: i < k && t.steps[i] == Close
  {
    if k > 0 {
      assert Next(t.states[k - 1], t.steps[k - 1], t.states[k]);
      if t.steps[k - 1] != Close {
        ClosingStep(t.states[k - 1], t.steps[k - 1], t.states[k]);
        ClosedByCaller(t, k - 1);
      }
    }
  }

  lemma {:induction false} ErrorAfterClose(t: Trace, k: nat)
    requires Run(t) && k <= |t.steps| && t.states[k].error
    ensures ErrorBehindClose(t, k)
  {
    if k > 0 {
      assert Next(t.states[k - 1], t.steps[k - 1], t.states[k]);
      if t.states[k - 1].error {
        ErrorAfterClose(t, k - 1);
      } else {
        ClosedByCaller(t, k - 1);
      }
    }
  }

  lemma {:induction false} ClosingStays(t: Trace, i: nat, j: nat)
    requires Run(t) && i <= j <= |t.steps| && t.states[i].closing
    ensures t.states[j].closing
    ensures t.states[i].error ==> t.states[j].error
    decreases j - i
  {
    if i < j {
      ClosingStays(t, i, j - 1);
      assert Next(t.states[j - 1], t.steps[j - 1], t.states[j]);
    }
  }

  lemma ErrorTold(t: Trace, i: nat, j: nat, k: nat)
    requires Run(t) && i < j < k <= |t.steps| && t.steps[i] == Close && t.steps[j] == ReadError
    ensures t.states[k].error
  {
    assert Next(t.states[i], t.steps[i], t.states[i + 1]);
    ClosingStays(t, i + 1, j);
    assert Next(t.states[j], t.steps[j], t.states[j + 1]);
    ClosingStays(t, j + 1, k);
  }

  /** A read error came after a call of Close. */
  ghost predicate ErrorBehindClose(t: Trace, k: nat)
    requires k <= |t.steps|
  {
    exists i: nat, j: nat :: i < j < k && t.steps[i] == Close && t.steps[j] == ReadError
  }

  /**
   * Close takes m_connectionError back, so a call that was woken returns RESULT_NETERROR if and only if Close was
   * called and a read error followed.
   */
  lemma NetErrorExactly(t: Trace, k: nat, c: nat)
    requires Run(t) && k < |t.steps| && t.steps[k] == Finish(c)
    ensures c in t.states[k].calls
    ensures ResultOf(t.states[k], t.states[k].calls[c]) == NetError
            <==> t.states[k].calls[c].phase != Expired && ErrorBehindClose(t, k)
  {
    assert Next(t.states[k], t.steps[k], t.states[k + 1]);
    if t.states[k].error { ErrorAfterClose(t, k); }
    if ErrorBehindClose(t, k) {
      var i: nat, j: nat :| i < j < k && t.steps[i] == Close && t.steps[j] == ReadError;
      ErrorTold(t, i, j, k);
    }
  }

  lemma MakeHeader(commandId: nat, seqNo: nat) returns (pdu: seq<byte>)
    requires commandId < 0x1_0000_0000 && seqNo < 0x1_0000_0000
    ensures HasHeader(pdu, commandId, seqNo)
  {
    PowerOfFour();
    var length, id, status, number := BigEndian(4, 16), BigEndian(4, commandId), BigEndian(4, 0), BigEndian(4, seqNo);
    pdu := length + id + status + number;
    assert pdu[4..8] == id && pdu[12..16] == number;
    NumberRoundTrip(4, commandId);
    NumberRoundTrip(4, seqNo);
  }

  /** A run and one step more. */
  lemma Extended(t: Trace, st: Step) returns (u: Trace)
    requires Run(t) && Enabled(t.states[|t.steps|], st)
    ensures Run(u) && u.steps == t.steps + [st]
    ensures u.states == t.states + [Apply(t.states[|t.steps|], st)]
  {
    u := Trace(t.states + [Apply(t.states[|t.steps|], st)], t.steps + [st]);
    forall k | 0 <= k < |u.steps| ensures Next(u.states[k], u.steps[k], u.states[k + 1]) {
      if k < |t.steps| { assert Next(t.states[k], t.steps[k], t.states[k + 1]); }
    }
  }

  lemma OneRequest(seqNo: nat, responseId: int) returns (t: Trace)
    ensures Run(t) && |t.steps| == 4
    ensures t.states[4]
            == CONNECTED.(pending := map[seqNo := 0], calls := map[0 := Call(seqNo, responseId, 0, None, Waiting)])
  {
    t := Trace([CONNECTED], []);
    t := Extended(t, Begin(0, seqNo, responseId, 0));
    t := Extended(t, SendSucceeds(0));
    t := Extended(t, Insert(0));
    t := Extended(t, Wait(0));
  }

  lemma ClosedAndFailed(t: Trace, seqNo: nat) returns (u: Trace)
    requires Run(t) && |t.steps| == 5
    requires var s := t.states[5];
             s.lock.None? && s.reading && !s.closing && InPhase(s, 0, Notified) && s.calls[0].seqNo == seqNo
    ensures Run(u) && |u.steps| == 8 && u.steps[..5] == t.steps && u.steps[7] == Finish(0)
    ensures InPhase(u.states[8], 0, Returned(NetError))
  {
    var s := t.states[5];
    u := Extended(t, Close);
    u := Extended(u, ReadError);
    assert u.states[7].calls[0] == s.calls[0];
    u := Extended(u, Finish(0));
  }

  /** That happens: a call that has been woken by its response is told RESULT_NETERROR. */
  lemma AnsweredThenNetError(seqNo: nat, commandId: nat) returns (t: Trace)
    requires 1 <= seqNo < 0x1_0000_0000 && RESPONSE_BIT <= commandId < 0x1_0000_0000
    ensures Run(t) && |t.steps| == 8 && t.steps[4].ReadResponse? && t.steps[4].seqNo == seqNo && t.steps[7] == Finish(0)
    ensures InPhase(t.states[8], 0, Returned(NetError))
  {
    var pdu := MakeHeader(commandId, seqNo);
    t := OneRequest(seqNo, commandId);
    WokenByResponse(t.states[4], seqNo, commandId, pdu);
    t := Extended(t, ReadResponse(seqNo, commandId, pdu, 0));
    var steps := t.steps;
    t := ClosedAndFailed(t, seqNo);
    assert t.steps[4] == t.steps[..5][4] == steps[4];
  }

  lemma WokenByResponse(s: Conn, seqNo: nat, commandId: int, pdu: seq<byte>)
    requires seqNo in s.pending && s.pending[seqNo] in s.calls && s.calls[s.pending[seqNo]].phase == Waiting
    ensures var s' := Apply(s, ReadResponse(seqNo, commandId, pdu, 0));
            && s' == s.(calls := s'.calls) && s'.calls.Keys == s.calls.Keys
            && s'.calls[s.pending[seqNo]].phase == Notified && s'.calls[s.pending[seqNo]].seqNo == s.calls[s.pending[seqNo]].seqNo
  {
  }

  // Where fresh numbers come from

  /** A run in which nothing is asked of the numbers of new requests. */
  ghost predicate RunOfSteps(t: Trace) {
    && |t.states| == |t.steps| + 1
    && t.states[0] == CONNECTED
    && forall k | 0 <= k < |t.steps| :: Moves(t.states[k], t.steps[k], t.states[k + 1])
  }

  /** Call c carries the number that NextSequenceNumber issued as the ticket-th. */
  ghost predicate Issued(c: nat, seqNo: nat, ticket: map<nat, nat>, cur: nat, draws: seq<SN.Draw>) {
    c in ticket && ticket[c] < |draws| && SN.Issues(cur, draws)[ticket[c]] == seqNo
  }

  /** Every new call has a number of the counter; those under way have other ones, issued less than a window away. */
  ghost predicate FromCounter(t: Trace, ticket: map<nat, nat>, cur: nat, draws: seq<SN.Draw>) {
    && |t.states| == |t.steps| + 1
    && forall k | 0 <= k < |t.steps| && t.steps[k].Begin? ::
         && Issued(t.steps[k].c, t.steps[k].seqNo, ticket, cur, draws)
         && forall d | Unreturned(t.states[k], d) && d in ticket ::
              var i, j := ticket[t.steps[k].c], ticket[d];
              i != j && i < j + SN.WINDOW && j < i + SN.WINDOW
  }

  lemma {:induction false} NumbersIssued(t: Trace, ticket: map<nat, nat>, cur: nat, draws: seq<SN.Draw>, k: nat, d: nat)
    requires RunOfSteps(t) && FromCounter(t, ticket, cur, draws) && k <= |t.steps| && d in t.states[k].calls
    ensures Issued(d, t.states[k].calls[d].seqNo, ticket, cur, draws)
  {
    if k > 0 {
      assert Moves(t.states[k - 1], t.steps[k - 1], t.states[k]);
      NumberKept(t.states[k - 1], t.steps[k - 1], d);
      if d in t.states[k - 1].calls && !(t.steps[k - 1].Begin? && t.steps[k - 1].c == d) {
        NumbersIssued(t, ticket, cur, draws, k - 1, d);
      }
    }
  }

  lemma NumberKept(s: Conn, st: Step, d: nat)
    requires Possible(s, st) && d in Apply(s, st).calls
    ensures var s' := Apply(s, st);
            if d in s.calls then s'.calls[d].seqNo == s.calls[d].seqNo
            else st.Begin? && st.c == d && s'.calls[d].seqNo == st.seqNo
  {
    match st
    case ReadError => assert Apply(s, st).calls == FailAll(s);
    case ReadResponse(seqNo, commandId, pdu, leftover) =>
      if seqNo in s.pending && s.pending[seqNo] in s.calls {
        RespondKeepsNumber(s.calls[s.pending[seqNo]], commandId, pdu, leftover);
      }
    case _ =>
  }

  lemma RespondKeepsNumber(call: Call, commandId: int, pdu: seq<byte>, leftover: int)
    ensures Respond(call, commandId, pdu, leftover).seqNo == call.seqNo
  {
  }

  /**
   * Numbers that come from NextSequenceNumber are fresh: when every call carries one, and no two calls under way carry
   * the same one or two issued a window or more apart, all that the runs here are asked of new numbers holds.
   */
  lemma CounterRunsAreRuns(t: Trace, ticket: map<nat, nat>, cur: nat, draws: seq<SN.Draw>)
    requires RunOfSteps(t) && 1 <= cur < SN.UINT_MAX && FromCounter(t, ticket, cur, draws)
    ensures Run(t)
  {
    forall k | 0 <= k < |t.steps| ensures Next(t.states[k], t.steps[k], t.states[k + 1]) {
      var s, st := t.states[k], t.steps[k];
      assert Moves(s, st, t.states[k + 1]);
      if st.Begin? {
        forall d | Unreturned(s, d) ensures s.calls[d].seqNo != st.seqNo {
          NumbersIssued(t, ticket, cur, draws, k, d);
          var i, j := ticket[st.c], ticket[d];
          if i < j { SN.ConnectionDistinct(cur, draws, i, j); } else { SN.ConnectionDistinct(cur, draws, j, i); }
        }
      }
    }
  }

  // What a decoded status can be

  /** Decoding checks the status, so it is never the -1 that marks a failed call. */
  lemma StatusIsListed(responseId: int, commandId: int, pdu: seq<byte>)
    ensures var r := DecodedStatus(responseId, commandId, pdu); r.Some? ==> IsCommandStatus(r.value)
  {
    var buf := Trimmed(commandId, pdu);
    var r := Unpacked(responseId, buf);
    if r.Some? {
      var u := Reversed(r.value);
      ParserExact(responseId, buf, r.value);
      EveryFrame(responseId);
      var items := Frame(responseId).value;
      assert items[2] == HEADER[2];
      assert SlotTyped(items[2], PrevNum(u, 2), u[2]);
      TokenOfSlot(items, u, 0, 2);
      assert u[2] == ReversedSlot(r.value[2]);
    }
  }

  lemma {:induction false} TokenOfSlot(items: seq<Item>, u: Struct, i: nat, j: nat)
    requires |u| == |items| && i <= j < |u| && items[j].Field? && u[j].Leaf?
    ensures MakeToken(items[j].kind, PrevNum(u, j), u[j].v) in Flatten(items, u, i)
    decreases j - i
  {
    if i < j {
      TokenOfSlot(items, u, i + 1, j);
    }
  }
}
