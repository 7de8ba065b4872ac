/** A response that stands on the wire as it should makes the request that waits for it succeed. */
module Answers {
  import opened Sequences
  import opened Bytes
  import opened Params
  import opened Frames
  import opened Tokens
  import opened Pack
  import opened Unpack
  import opened RoundTrip
  import opened SendPdu
  import L = Layouts
  import P = Protocol

  // Responses, octet by octet

  /**
   * The octets are a PDU that smpp34_unpack takes, with the id, the status and the number. Behind the message id of a
   * submit_sm_resp or deliver_sm_resp anything may follow, and then the length may be any.
   */
  ghost predicate IsResponse(pdu: seq<byte>, id: int, status: nat, number: nat) {
    exists m: L.Message :: L.Named(m) && L.Id(m) == id && IsResponseOf(m, pdu, status, number)
  }

  ghost predicate IsResponseOf(m: L.Message, pdu: seq<byte>, status: nat, number: nat)
    requires L.Named(m)
  {
    && L.Stored(L.Rows(m)) && L.TakenIn(L.Rows(m))
    && IsCommandStatus(status) && 0 < number < 0x1_0000_0000 && |L.Pdu(m, status, number)| < 0x1_0000_0000
    && (pdu == L.Pdu(m, status, number)
        || (L.Id(m) in {0x8000_0004, 0x8000_0005} && Overlong(pdu, L.Pdu(m, status, number))))
  }

  /** The same PDU with another length and with octets behind it. */
  ghost predicate Overlong(pdu: seq<byte>, o: seq<byte>) {
    |o| >= 4 && exists length: seq<byte>, more: seq<byte> :: |length| == 4 && more != [] && pdu == length + o[4..] + more
  }

  lemma SameBehindFour(o: seq<byte>, length: seq<byte>, more: seq<byte>, i: nat)
    requires |length| == 4 <= i && i + 4 <= |o|
    ensures var pdu := length + o[4..] + more; i + 4 <= |pdu| && pdu[i..i + 4] == o[i..i + 4]
  {
    var pdu := length + o[4..] + more;
    forall k | i <= k < i + 4 ensures pdu[k] == o[k] {
      assert (length + o[4..])[k] == o[4..][k - 4];
    }
  }

  lemma SecondAndFourth<T>(a: seq<T>, b: seq<T>, c: seq<T>, d: seq<T>, e: seq<T>)
    requires |a| == |b| == |c| == |d| == 4
    ensures var o := a + b + c + d + e; |o| >= 16 && o[4..8] == b && o[12..16] == d
  {
  }

  lemma HeaderRead(m: L.Message, status: nat, number: nat, length: seq<byte>, more: seq<byte>)
    requires L.Named(m) && |length| == 4 && number < 0x1_0000_0000
    ensures P.HasHeader(length + L.Pdu(m, status, number)[4..] + more, L.Id(m), number)
  {
    var id, o := L.Id(m), L.Pdu(m, status, number);
    L.IdListed(m);
    SecondAndFourth(L.FourOctets(|o|), L.FourOctets(id), L.FourOctets(status), L.FourOctets(number), L.Join(L.Rows(m)));
    SameBehindFour(o, length, more, 4);
    SameBehindFour(o, length, more, 12);
    L.BigEndianOctets(id);
    L.BigEndianOctets(number);
    PowerOfFour();
    NumberRoundTrip(4, id);
    NumberRoundTrip(4, number);
  }

  /** The first string of the body ends the body. */
  lemma EndsAtNul(pdu: seq<byte>, text: seq<byte>, more: seq<byte>)
    requires |pdu| >= 16 && 0 !in text && pdu[16..] == text + [0] + more
    ensures NulFrom(pdu, 16) == 16 + |text|
  {
    var n := 16 + |text|;
    assert pdu[n] == pdu[16..][|text|] == 0;
    assert pdu[16..n] == pdu[16..][..|text|] == text;
    NulFound(pdu, 16, n);
  }

  lemma StringBody(m: L.Message)
    requires L.Named(m) && L.Stored(L.Rows(m)) && (m.MessageIdResp? || m.DeliverResp?)
    ensures exists text: seq<byte> :: 0 !in text && L.Join(L.Rows(m)) == text + [0]
  {
    var size := if m.MessageIdResp? then 65 else 1;
    var row := L.Text("message_id", m.messageId, size);
    assert L.Rows(m) == [row] + [];
    assert row in L.Rows(m);
    L.JoinCons(row, []);
    AppendNothing(row.octets);
    assert row.octets == L.Shortened(m.messageId, size) + [0];
  }

  lemma PduBody(m: L.Message, status: nat, number: nat)
    requires L.Named(m)
    ensures L.Pdu(m, status, number)[16..] == L.Join(L.Rows(m))
  {
  }

  /** Which responses are cut, and which of them are the same afterwards. */
  lemma CutIds(m: L.Message)
    requires L.Named(m) && L.Id(m) >= P.RESPONSE_BIT && (L.Id(m) / SUBMIT_SM) % 2 == 1
    ensures (m.MessageIdResp? && L.Id(m) == 0x8000_0004) || m.DeliverResp? || m.Bare?
  {
  }

  lemma NothingToCut(m: L.Message, status: nat, number: nat)
    requires L.Named(m) && L.Stored(L.Rows(m)) && L.Id(m) >= P.RESPONSE_BIT
    ensures P.Trimmed(L.Id(m), L.Pdu(m, status, number)) == L.Pdu(m, status, number)
  {
    if (L.Id(m) / SUBMIT_SM) % 2 == 1 {
      CutIds(m);
      PduBody(m, status, number);
      if !m.Bare? {
        StringBody(m);
        var text :| 0 !in text && L.Join(L.Rows(m)) == text + [0];
        AppendNothing(text + [0]);
        EndsAtNul(L.Pdu(m, status, number), text, []);
      }
    }
  }

  lemma Relengthened(o: seq<byte>, length: seq<byte>, more: seq<byte>)
    requires |o| >= 16 && |length| == 4
    ensures var pdu := length + o[4..] + more;
            && |pdu| == |o| + |more| && pdu[16..] == o[16..] + more
            && pdu[..|o|][4..] == o[4..]
  {
  }

  /** Cutting behind the message id gives the PDU back. */
  lemma CutToPdu(commandId: int, o: seq<byte>, pdu: seq<byte>, text: seq<byte>, more: seq<byte>)
    requires (commandId / SUBMIT_SM) % 2 == 1 && |o| >= 16 && |pdu| == |o| + |more| && more != []
    requires 0 !in text && o[16..] == text + [0] && pdu[16..] == text + [0] + more && pdu[..|o|][4..] == o[4..]
    requires o == BigEndian(4, |o|) + o[4..]
    ensures P.Trimmed(commandId, pdu) == o
  {
    EndsAtNul(pdu, text, more);
  }

  lemma LengthFirst(m: L.Message, status: nat, number: nat)
    requires L.Named(m)
    ensures var o := L.Pdu(m, status, number); o == BigEndian(4, |o|) + o[4..]
  {
    var o := L.Pdu(m, status, number);
    L.BigEndianOctets(|o|);
    L.PduJoined(m, 0, status, number);
    Appended(L.FourOctets(|o|), L.Join(L.Whole(m, 0, status, number))[4..]);
  }

  lemma CutBack(m: L.Message, status: nat, number: nat, length: seq<byte>, more: seq<byte>)
    requires L.Named(m) && L.Stored(L.Rows(m)) && L.Id(m) in {0x8000_0004, 0x8000_0005} && |length| == 4 && more != []
    ensures P.Trimmed(L.Id(m), length + L.Pdu(m, status, number)[4..] + more) == L.Pdu(m, status, number)
  {
    var o := L.Pdu(m, status, number);
    WithMessageId(m);
    PduBody(m, status, number);
    StringBody(m);
    var text :| 0 !in text && L.Join(L.Rows(m)) == text + [0];
    Relengthened(o, length, more);
    LengthFirst(m, status, number);
    CutToPdu(L.Id(m), o, length + o[4..] + more, text, more);
  }

  lemma WithMessageId(m: L.Message)
    requires L.Named(m) && L.Id(m) in {0x8000_0004, 0x8000_0005}
    ensures m.MessageIdResp? || m.DeliverResp?
  {
  }

  lemma TrimmedToPdu(m: L.Message, pdu: seq<byte>, status: nat, number: nat)
    requires L.Named(m) && L.Id(m) >= P.RESPONSE_BIT && IsResponseOf(m, pdu, status, number)
    ensures P.HasHeader(pdu, L.Id(m), number) && P.Trimmed(L.Id(m), pdu) == L.Pdu(m, status, number)
  {
    var o := L.Pdu(m, status, number);
    if pdu == o {
      HeaderRead(m, status, number, o[..4], []);
      PutTogether(o, 4);
      NothingToCut(m, status, number);
    } else {
      var length: seq<byte>, more: seq<byte> :| |length| == 4 && more != [] && pdu == length + o[4..] + more;
      HeaderRead(m, status, number, length, more);
      CutBack(m, status, number, length, more);
    }
  }

  lemma PutTogether<T>(o: seq<T>, n: nat)
    requires n <= |o|
    ensures o[..n] + o[n..] + [] == o
  {
  }

  /** Such octets are decoded, and the status in them is found. */
  lemma ResponseDecoded(pdu: seq<byte>, id: int, status: nat, number: nat)
    requires IsResponse(pdu, id, status, number) && id >= P.RESPONSE_BIT
    ensures P.HasHeader(pdu, id, number) && P.DecodedStatus(id, id, pdu) == Some(status)
  {
    var m: L.Message :| L.Named(m) && L.Id(m) == id && IsResponseOf(m, pdu, status, number);
    TrimmedToPdu(m, pdu, status, number);
    DecodedAlone(m, status, number);
  }

  lemma DecodedAlone(m: L.Message, status: nat, number: nat)
    requires L.Named(m) && L.Stored(L.Rows(m)) && L.TakenIn(L.Rows(m))
    requires IsCommandStatus(status) && 0 < number < 0x1_0000_0000 && |L.Pdu(m, status, number)| < 0x1_0000_0000
    ensures var s := Unpacked(L.Id(m), L.Pdu(m, status, number));
            s.Some? && |s.value| >= 4 && SlotNum(s.value[1]) == L.Id(m) && SlotNum(s.value[2]) == status
  {
    var o := L.Pdu(m, status, number);
    AppendNothing(o);
    L.UnpackedAsLaidOut(m, status, number, []);
    HeaderArrives(m, |o|, status, number);
  }

  lemma HeaderArrives(m: L.Message, length: nat, status: nat, number: nat)
    requires L.Named(m)
    ensures var s := L.Arrived(L.Whole(m, length, status, number));
            |s| >= 4 && SlotNum(s[1]) == L.Id(m) && SlotNum(s[2]) == status
  {
    L.IdListed(m);
  }

  // Requests

  /** The call is woken, and what it will be told does not change any more. */
  ghost predicate Woken(s: P.Conn, c: nat, seqNo: nat, status: int) {
    P.InPhase(s, c, P.Notified) && s.calls[c].seqNo == seqNo && s.calls[c].status == status && !s.error
  }

  /** A step that can spoil an answer: a failed read, or something else read as the response with the number. */
  predicate Spoils(st: P.Step, seqNo: nat) {
    || st.ReadError?
    || (st.ReadResponse? && st.seqNo == seqNo)
    || (st.ReadBodyFails? && st.seqNo == seqNo && st.commandId >= P.RESPONSE_BIT)
  }

  lemma WokenStep(s: P.Conn, st: P.Step, s': P.Conn, c: nat, seqNo: nat, status: int)
    requires P.Inv(s) && P.Next(s, st, s') && Woken(s, c, seqNo, status)
    requires !Spoils(st, seqNo) && st != P.Finish(c)
    ensures Woken(s', c, seqNo, status)
  {
  }

  lemma {:induction false} StaysReturned(t: P.Trace, i: nat, j: nat, c: nat)
    requires P.Run(t) && i <= j <= |t.steps| && c in t.states[i].calls && t.states[i].calls[c].phase.Returned?
    ensures c in t.states[j].calls && t.states[j].calls[c].phase.Returned?
    decreases j - i
  {
    if i < j {
      StaysReturned(t, i, j - 1, c);
      assert P.Next(t.states[j - 1], t.steps[j - 1], t.states[j]);
      P.RunKeeps(t, j - 1);
      ReturnedStep(t.states[j - 1], t.steps[j - 1], t.states[j], c);
    }
  }

  lemma ReturnedStep(s: P.Conn, st: P.Step, s': P.Conn, c: nat)
    requires P.Inv(s) && P.Next(s, st, s') && c in s.calls && s.calls[c].phase.Returned?
    ensures c in s'.calls && s'.calls[c].phase.Returned?
  {
  }

  lemma FinishesOnce(t: P.Trace, h: nat, k: nat, c: nat)
    requires P.Run(t) && h < k < |t.steps| && t.steps[k] == P.Finish(c)
    ensures t.steps[h] != P.Finish(c)
  {
    assert P.Next(t.states[h], t.steps[h], t.states[h + 1]) && P.Next(t.states[k], t.steps[k], t.states[k + 1]);
    if t.steps[h] == P.Finish(c) {
      StaysReturned(t, h + 1, k, c);
    }
  }

  lemma {:induction false} StaysWoken(t: P.Trace, i: nat, j: nat, k: nat, c: nat, seqNo: nat, status: int)
    requires P.Run(t) && i <= j <= k < |t.steps| && t.steps[k] == P.Finish(c) && Woken(t.states[i], c, seqNo, status)
    requires forall h | i <= h < k :: !Spoils(t.steps[h], seqNo)
    ensures Woken(t.states[j], c, seqNo, status)
    decreases j - i
  {
    if i < j {
      StaysWoken(t, i, j - 1, k, c, seqNo, status);
      P.RunKeeps(t, j - 1);
      assert P.Next(t.states[j - 1], t.steps[j - 1], t.states[j]);
      FinishesOnce(t, j - 1, k, c);
      WokenStep(t.states[j - 1], t.steps[j - 1], t.states[j], c, seqNo, status);
    }
  }

  lemma WakesCaller(t: P.Trace, i: nat, c: nat)
    requires P.Run(t) && i < |t.steps| && t.steps[i].ReadResponse? && P.InPhase(t.states[i], c, P.Waiting)
    requires t.steps[i].seqNo in t.states[i].pending && t.states[i].pending[t.steps[i].seqNo] == c
    ensures var call, st := t.states[i].calls[c], t.steps[i];
            var decoded := P.DecodedStatus(call.responseId, st.commandId, st.pdu);
            && call.seqNo == st.seqNo
            && Woken(t.states[i + 1], c, call.seqNo, if decoded.Some? then decoded.value else -1)
  {
    P.RunKeeps(t, i);
    assert P.Next(t.states[i], t.steps[i], t.states[i + 1]);
  }

  /**
   * What a response that is read for a waiting call comes to, unless another response with its number or a failed read
   * comes before the call returns: RESULT_OK with the status that was decoded, or RESULT_INVRESP.
   */
  lemma AnswerReturned(t: P.Trace, i: nat, k: nat, c: nat)
    requires P.Run(t) && i < k < |t.steps| && t.steps[i].ReadResponse? && t.steps[k] == P.Finish(c)
    requires P.InPhase(t.states[i], c, P.Waiting)
    requires t.steps[i].seqNo in t.states[i].pending && t.states[i].pending[t.steps[i].seqNo] == c
    requires forall h | i < h < k :: !Spoils(t.steps[h], t.steps[i].seqNo)
    ensures var st := t.steps[i];
            var decoded := P.DecodedStatus(t.states[i].calls[c].responseId, st.commandId, st.pdu);
            && c in t.states[k + 1].calls
            && t.states[k + 1].calls[c].phase == P.Returned(if decoded.Some? then ResultOk else InvResp)
            && (decoded.Some? ==> t.states[k + 1].calls[c].status == decoded.value)
  {
    var st := t.steps[i];
    var decoded := P.DecodedStatus(t.states[i].calls[c].responseId, st.commandId, st.pdu);
    var status := if decoded.Some? then decoded.value else -1;
    WakesCaller(t, i, c);
    StaysWoken(t, i + 1, k, k, c, st.seqNo, status);
    assert P.Next(t.states[k], t.steps[k], t.states[k + 1]);
  }

  /**
   * A request that waits is answered by the octets of its response: SendRequest returns RESULT_OK and the command has
   * the status that stands in them. A call of Close in between does no harm.
   */
  lemma AnsweredSucceeds(t: P.Trace, i: nat, k: nat, c: nat, status: nat)
    requires P.Run(t) && i < k < |t.steps| && t.steps[i].ReadResponse? && t.steps[k] == P.Finish(c)
    requires P.InPhase(t.states[i], c, P.Waiting) && !t.states[i].closing
    requires t.states[i].calls[c].responseId >= 0x8000_0000
    requires IsResponse(t.steps[i].pdu, t.states[i].calls[c].responseId, status, t.states[i].calls[c].seqNo)
    requires forall h | i < h < k :: !Spoils(t.steps[h], t.states[i].calls[c].seqNo)
    ensures c in t.states[k + 1].calls
    ensures t.states[k + 1].calls[c].phase == P.Returned(ResultOk) && t.states[k + 1].calls[c].status == status
  {
    var call := t.states[i].calls[c];
    ResponseDecoded(t.steps[i].pdu, call.responseId, status, call.seqNo);
    assert P.Next(t.states[i], t.steps[i], t.states[i + 1]);
    assert t.steps[i].commandId == call.responseId && t.steps[i].seqNo == call.seqNo;
    P.RunKeeps(t, i);
    assert P.CallOk(t.states[i], c);
    AnswerReturned(t, i, k, c);
  }
}
