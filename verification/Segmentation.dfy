/** CSMPPClient::SendMessage: cutting a text into segments, sending them one after the other, and what has arrived. */
module Segmentation {
  import opened Sequences
  import opened Bytes
  import opened Params
  import opened Frames
  import opened Tokens
  import opened Submit
  import opened SendPdu
  import opened SequenceNumbers
  import A = Addresses
  import S = Sessions

  datatype Settings = Settings(enablePayload: bool, enableConcatenation: bool, maxLength: nat, coding: nat)

  // Cutting

  /** The longest text that goes into one submit_sm without a payload. */
  function ShortLimit(m: Settings): (n: nat)
    ensures 1 <= n <= MAX_SHORT
  {
    if m.maxLength == 0 then MAX_SHORT else if m.maxLength < MAX_SHORT then m.maxLength else MAX_SHORT
  }

  predicate Single(m: Settings, length: nat) {
    length <= MAX_PAYLOAD && (m.enablePayload || length <= ShortLimit(m))
  }

  function SegmentLength(m: Settings): (n: nat)
    ensures 1 <= n <= MAX_PAYLOAD
  {
    if m.enablePayload then MAX_PAYLOAD else ShortLimit(m)
  }

  function Cut(text: seq<byte>, limit: nat): seq<seq<byte>>
    requires limit > 0
  {
    if text == [] then []
    else if |text| <= limit then [text]
    else [text[..limit]] + Cut(text[limit..], limit)
  }

  function Concat(pieces: seq<seq<byte>>): seq<byte> {
    if pieces == [] then [] else pieces[0] + Concat(pieces[1..])
  }

  /** The texts of the commands, in order. */
  function Pieces(m: Settings, text: seq<byte>): seq<seq<byte>> {
    if Single(m, |text|) then [text] else Cut(text, SegmentLength(m))
  }

  /** The number of segments as SendMessage computes it. */
  function Total(length: nat, limit: nat): nat
    requires limit > 0
  {
    length / limit + if length % limit > 0 then 1 else 0
  }

  lemma OneMore(length: nat, limit: nat)
    requires limit > 0 && length > limit
    ensures Total(length, limit) == 1 + Total(length - limit, limit)
  {
    OneMoreQuotient(length - limit, limit, (length - limit) / limit, (length - limit) % limit);
  }

  lemma OneMoreQuotient(n: nat, d: nat, q: nat, r: nat)
    requires d > 0 && n == d * q + r && r < d
    ensures (n + d) / d == q + 1 && (n + d) % d == r
  {
    assert n + d == d * (q + 1) + r;
    Quotient(n + d, d, q + 1, r);
  }

  lemma Quotient(n: nat, d: nat, q: nat, r: nat)
    requires d > 0 && n == d * q + r && r < d
    ensures n / d == q && n % d == r
  {
    var q', r' := n / d, n % d;
    assert d * q' + r' == d * q + r;
    MultiplesApart(d, q, q');
    MultiplesApart(d, q', q);
  }

  lemma MultiplesApart(d: nat, a: int, b: int)
    ensures a < b ==> d * a + d <= d * b
  {
    if a < b {
      var e: nat := b - a - 1;
      assert b == a + (1 + e);
      Distribute(d, a, 1 + e);
      Distribute(d, 1, e);
    }
  }

  lemma Distribute(d: nat, a: int, b: nat)
    ensures d * (a + b) == d * a + d * b && d * b >= 0
  {
  }

  lemma TotalOfOne(length: nat, limit: nat)
    requires limit > 0 && length <= limit
    ensures Total(length, limit) == if length == 0 then 0 else 1
  {
    if length < limit { Quotient(length, limit, 0, length); } else { Quotient(length, limit, 1, 0); }
  }

  /** The segments are as many as computed and join to the text. */
  lemma {:induction false} CutExactly(text: seq<byte>, limit: nat)
    requires limit > 0
    ensures |Cut(text, limit)| == Total(|text|, limit) && Concat(Cut(text, limit)) == text
    decreases |text|
  {
    if |text| <= limit {
      TotalOfOne(|text|, limit);
      assert [text][1..] == [] && text + [] == text;
    } else {
      var rest := text[limit..];
      CutExactly(rest, limit);
      OneMore(|text|, limit);
      assert Cut(text, limit)[1..] == Cut(rest, limit);
      assert text[..limit] + rest == text;
    }
  }

  /** All segments are full but the last, which has what is left and is not empty. */
  lemma {:induction false} CutLengths(text: seq<byte>, limit: nat)
    requires limit > 0
    ensures var c := Cut(text, limit);
            && (forall k | 0 <= k < |c| - 1 :: |c[k]| == limit)
            && (c != [] ==> |c[|c| - 1]| == if |text| % limit == 0 then limit else |text| % limit)
            && (|text| > limit ==> |c| > 1)
    decreases |text|
  {
    var c := Cut(text, limit);
    if |text| > limit {
      var rest := text[limit..];
      CutLengths(rest, limit);
      OneMoreQuotient(|rest|, limit, |rest| / limit, |rest| % limit);
      assert c == [text[..limit]] + Cut(rest, limit);
      assert Cut(rest, limit) != [];
    } else if |text| == limit {
      Quotient(limit, limit, 1, 0);
    } else {
      Quotient(|text|, limit, 0, |text|);
    }
  }

  /** Where segment k starts: k times the limit, by steps of the limit. */
  function Start(limit: nat, k: nat): nat {
    if k == 0 then 0 else limit + Start(limit, k - 1)
  }

  lemma {:induction false} CutAt(text: seq<byte>, limit: nat, k: nat)
    requires limit > 0 && k < |Cut(text, limit)|
    ensures Start(limit, k) < |text|
    ensures var i := Start(limit, k);
            Cut(text, limit)[k] == text[i..if i + limit < |text| then i + limit else |text|]
    ensures k + 1 < |Cut(text, limit)| <==> Start(limit, k) + limit < |text|
    decreases k
  {
    if |text| > limit {
      var rest := text[limit..];
      if k > 0 {
        CutAt(rest, limit, k - 1);
      } else {
        assert Cut(rest, limit) != [];
      }
    }
  }

  /** The index of the loop over the segments after k turns. */
  function Index(length: nat, limit: nat, k: nat): (i: nat)
    ensures i <= length
  {
    if k == 0 then 0
    else
      var i := Index(length, limit, k - 1);
      if length - i < limit then length else i + limit
  }

  lemma {:induction false} IndexIsStart(length: nat, limit: nat, k: nat)
    ensures Index(length, limit, k) == if Start(limit, k) < length then Start(limit, k) else length
  {
    if k > 0 { IndexIsStart(length, limit, k - 1); }
  }

  /** Turn k sends piece k, and the loop goes on as long as there are pieces. */
  lemma NextPiece(text: seq<byte>, limit: nat, k: nat)
    requires limit > 0 && k < |Cut(text, limit)|
    ensures var i, next := Index(|text|, limit, k), Index(|text|, limit, k + 1);
            && i < next && Cut(text, limit)[k] == text[i..next]
            && (k + 1 < |Cut(text, limit)| <==> next < |text|)
  {
    CutAt(text, limit, k);
    IndexIsStart(|text|, limit, k);
    IndexIsStart(|text|, limit, k + 1);
  }

  lemma PiecesJoin(m: Settings, text: seq<byte>)
    ensures Pieces(m, text) != [] && Concat(Pieces(m, text)) == text
    ensures forall p | p in Pieces(m, text) :: |p| <= MAX_PAYLOAD
  {
    if Single(m, |text|) {
      assert [text][1..] == [] && text + [] == text;
    } else {
      CutExactly(text, SegmentLength(m));
      CutLengths(text, SegmentLength(m));
    }
  }

  // Which messages can be sent at all

  /** A caller can tell from the settings and the length. */
  predicate Sendable(m: Settings, length: nat) {
    if Single(m, length) then length != MAX_SHORT
    else if m.enablePayload then length % MAX_PAYLOAD != MAX_SHORT
    else ShortLimit(m) != MAX_SHORT
  }

  /** Full segments have the length of all but the last, and the last has what is left. */
  lemma SegmentLengths(text: seq<byte>, limit: nat)
    requires limit > 0 && |text| > limit
    ensures var c := Cut(text, limit);
            && |c| > 1 && |c[0]| == limit
            && forall p | p in c :: |p| == limit || |p| == |text| % limit
    ensures |text| % limit != 0 ==> exists p | p in Cut(text, limit) :: |p| == |text| % limit
  {
    var c := Cut(text, limit);
    CutLengths(text, limit);
    assert c[|c| - 1] in c;
  }

  /** Every segment can be packed exactly when none has 254 octets, which the settings and the length decide. */
  lemma SendableExactly(m: Settings, text: seq<byte>)
    ensures Sendable(m, |text|) <==> forall p | p in Pieces(m, text) :: |p| != MAX_SHORT
  {
    var pieces := Pieces(m, text);
    if Single(m, |text|) {
      assert text in pieces;
    } else {
      SegmentLengths(text, SegmentLength(m));
      assert pieces[0] in pieces;
    }
  }

  /** Messages that do not fit without a payload cannot be sent under the longest limit, which is the default. */
  lemma LongWithoutPayload(m: Settings, text: seq<byte>)
    requires !m.enablePayload && (m.maxLength == 0 || m.maxLength >= MAX_SHORT) && |text| > MAX_SHORT
    ensures |Pieces(m, text)[0]| == MAX_SHORT
  {
    CutLengths(text, MAX_SHORT);
  }

  lemma CeilingOf(length: nat, limit: nat)
    requires limit > 0
    ensures Total(length, limit) == (length + limit - 1) / limit
  {
    var q, r := length / limit, length % limit;
    if r == 0 {
      assert length + limit - 1 == limit * q + (limit - 1);
      Quotient(length + limit - 1, limit, q, limit - 1);
    } else {
      assert length + limit - 1 == limit * (q + 1) + (r - 1) by { Distribute(limit, q, 1); }
      Quotient(length + limit - 1, limit, q + 1, r - 1);
    }
  }

  lemma {:induction false} StartIsMultiple(limit: nat, k: nat)
    ensures Start(limit, k) == limit * k
  {
    if k > 0 {
      StartIsMultiple(limit, k - 1);
      Distribute(limit, k - 1, 1);
    }
  }

  /** What fits one command: 1024 octets with payloads, else MaxMessageLength, which is 254 by default and at most. */
  lemma OneCommand(m: Settings, text: seq<byte>)
    ensures var limit := if m.enablePayload then 1024
                         else if m.maxLength == 0 || m.maxLength >= 254 then 254 else m.maxLength;
            && (Pieces(m, text) == [text] <==> |text| <= limit)
            && (StatedTotal(m, text).Some? <==> m.enableConcatenation && |text| > limit)
  {
    CutLengths(text, SegmentLength(m));
  }

  /**
   * A message that does not fit is cut at every multiple of that limit: all pieces are full but the last, their number
   * is the ceiling of the quotient, and with concatenation it is what every segment states.
   */
  lemma ManyCommands(m: Settings, text: seq<byte>)
    requires |text| > if m.enablePayload then 1024
                      else if m.maxLength == 0 || m.maxLength >= 254 then 254 else m.maxLength
    ensures var limit := if m.enablePayload then 1024
                         else if m.maxLength == 0 || m.maxLength >= 254 then 254 else m.maxLength;
            var pieces := Pieces(m, text);
            && |pieces| == (|text| + limit - 1) / limit
            && (forall k | 0 <= k < |pieces| ::
                  limit * k < |text|
                  && pieces[k] == text[limit * k..if limit * k + limit < |text| then limit * k + limit else |text|])
            && (m.enableConcatenation ==> StatedTotal(m, text) == Some(|pieces|))
  {
    var limit := SegmentLength(m);
    var pieces := Pieces(m, text);
    CutExactly(text, limit);
    CeilingOf(|text|, limit);
    forall k | 0 <= k < |pieces|
      ensures limit * k < |text|
              && pieces[k] == text[limit * k..if limit * k + limit < |text| then limit * k + limit else |text|]
    {
      CutAt(text, limit, k);
      StartIsMultiple(limit, k);
    }
  }

  // Numbering

  /** How many segments a message says it has: nothing when it is not concatenated. */
  function StatedTotal(m: Settings, text: seq<byte>): Option<nat> {
    if m.enableConcatenation && !Single(m, |text|) then Some(|Pieces(m, text)|) else None
  }

  /** The place that piece k is given, from 0. */
  function PlaceOf(total: Option<nat>, ref: nat, k: nat): Option<Sar> {
    if total.Some? then Some(Sar(total.value, ref, k + 1)) else None
  }

  /** Segment k arrives with its number, counted from 1, and the total. */
  predicate Numbered(total: nat, ref: nat, k: nat) {
    var p := Place(Some(Sar(total, ref, k + 1)));
    p.0 == Some(Num(total)) && p.2 == Some(Num(k + 1))
  }

  /** The segments arrive numbered from 1 to total, which they state, exactly when total fits its octet. */
  lemma NumbersFit(total: nat, ref: nat)
    requires total > 0
    ensures (forall k | 0 <= k < total :: Numbered(total, ref, k)) <==> total <= 255
  {
    if total > 255 {
      assert !Numbered(total, ref, total - 1);
    }
  }

  /** Segments more than 255 apart arrive with the same number. */
  lemma NumbersRepeat(total: nat, ref: nat, k: nat)
    requires k + 256 < total
    ensures Place(Some(Sar(total, ref, k + 1))).2 == Place(Some(Sar(total, ref, k + 256 + 1))).2
  {
  }

  // Sending

  /** HandleMessageResponse */
  function Handled(status: int): S.DeliveryResult {
    if status == S.ESME_ROK then S.DeliveryOk
    else if status == S.ESME_RINVSRCADR then S.DeliveryInvSrcAddr
    else if status == S.ESME_RINVDSTADR then S.DeliveryInvDestAddr
    else if status == S.ESME_RINVCMDID then S.DeliveryRejected
    else S.DeliveryUnknownError
  }

  /** What a caller is told for a call of SendRequest. */
  function Verdict(res: Result, status: int): S.DeliveryResult {
    if res == ResultOk then Handled(status) else S.DeliveryUnknownError
  }

  /** A delivery result that the server sends as a status reaches the client's caller as it is, unless it is REJECTED. */
  lemma ResultSurvives(d: S.DeliveryResult)
    ensures Handled(S.DeliveryStatus(d)) == d <==> d != S.DeliveryRejected
  {
  }

  /** What a caller is told, by the numbers of the statuses. */
  lemma VerdictExactly(res: Result, status: int)
    ensures Verdict(res, status) == S.DeliveryOk <==> res == ResultOk && status == 0x00
    ensures Verdict(res, status) == S.DeliveryRejected <==> res == ResultOk && status == 0x03
    ensures Verdict(res, status) == S.DeliveryInvSrcAddr <==> res == ResultOk && status == 0x0A
    ensures Verdict(res, status) == S.DeliveryInvDestAddr <==> res == ResultOk && status == 0x0B
    ensures Verdict(res, status) == S.DeliveryUnknownError <==> res != ResultOk || status !in {0x00, 0x03, 0x0A, 0x0B}
  {
  }

  /** What is reported for the submission, brought at step a, of a connection that was bound as the user. */
  ghost predicate ReportedFor(t: S.Trace, a: nat, k: nat, x: nat, user: S.User, from: seq<byte>, to: seq<byte>,
                              told: S.DeliveryResult)
    requires k <= |t.steps|
  {
    if user.mode == S.Receiver then told == S.DeliveryRejected
    else if user.mode == S.Transceiver && !A.Owns(user.addresses, from) then told == S.DeliveryInvSrcAddr
    else if user.mode == S.Transceiver && A.Owns(user.addresses, to) then told == S.DeliveryInvDestAddr
    else
      exists d :: S.DecidedBy(t, a, k, S.DeliveryReturns(x, d))
                  && told == if d == S.DeliveryRejected then S.DeliveryUnknownError else d
  }

  /**
   * What the client reports for the server's response to its submission, in every run of the server: a receiver is
   * rejected, a transceiver with a wrong address learns which, and every other user what DeliverMessage returned, but
   * for its DELIVERY_REJECTED.
   */
  lemma SubmissionReported(t: S.Trace, k: nat, x: nat)
    requires S.Run(t) && k < |t.steps| && t.steps[k] == S.Reply(x)
    ensures x in t.states[k + 1].tasks && t.states[k + 1].tasks[x].phase.Done?
    ensures var task := t.states[k + 1].tasks[x];
            var told := Handled(task.phase.status);
            task.cmd.SubmitSm? ==>
              exists a: nat ::
                && a < k && t.steps[a] == S.Command(x, task.conn, task.seqNo, task.cmd)
                && var clients := t.states[a].clients;
                if task.conn !in clients then told == S.DeliveryUnknownError
                else ReportedFor(t, a, k, x, clients[task.conn], task.cmd.from, task.cmd.to, told)
  {
    S.ResponseExplained(t, k, x);
    var task := t.states[k + 1].tasks[x];
    if task.cmd.SubmitSm? {
      var a: nat :| a < k && t.steps[a] == S.Command(x, task.conn, task.seqNo, task.cmd)
                    && S.ToBeTold(t, a, k, x, task.phase.status, task.phase.keep);
      if task.conn in t.states[a].clients {
        var user, told := t.states[a].clients[task.conn], Handled(task.phase.status);
        assert ReportedFor(t, a, k, x, user, task.cmd.from, task.cmd.to, told);
      }
    }
  }

  /** Every status that the server answers with is one that smpp34_pack writes and smpp34_unpack takes. */
  lemma AnswersCanBeSent(t: S.Trace, k: nat, x: nat)
    requires S.Run(t) && k < |t.steps| && t.steps[k] == S.Reply(x)
    ensures x in t.states[k + 1].tasks && t.states[k + 1].tasks[x].phase.Done?
    ensures IsCommandStatus(t.states[k + 1].tasks[x].phase.status)
  {
    S.ResponseExplained(t, k, x);
  }

  /** What arrived is the text with its addresses and its place. */
  ghost predicate Carries(a: Struct, from: seq<byte>, to: seq<byte>, text: seq<byte>, sar: Option<Sar>) {
    && |text| != MAX_SHORT
    && GetText(a) == text
    && GetString(a, SOURCE_ADDR) == Printed(from, 21) && GetString(a, DESTINATION_ADDR) == Printed(to, 21)
    && GetSar(a) == Place(sar)
  }

  class SmppClient {
    var m_isBound: bool
    var m_settings: Settings
    const numbers: Counter
    /** How often SendRequest was called, what the last call gave, and what arrived of the acknowledged commands. */
    ghost var calls: nat
    ghost var last: (Result, int)
    ghost var acked: seq<Struct>

    constructor (settings: Settings, bound: bool, rand: nat)
      ensures m_settings == settings && m_isBound == bound && calls == 0 && acked == []
      ensures numbers.Valid() && fresh(numbers)
    {
      m_settings, m_isBound, calls, acked := settings, bound, 0, [];
      numbers := new Counter(rand);
    }

    /** SendRequest for a submit_sm. */
    method SendRequest(cmd: MessageCommand) returns (res: Result, status: int)
      requires cmd.Valid() && Good(SUBMIT_SM, cmd.request)
      modifies this`calls, this`last, this`acked
      ensures calls == old(calls) + 1 && last == (res, status)
      ensures res == ResultOk ==> Received(SUBMIT_SM, cmd.request).Some?
      ensures acked == if res == ResultOk && status == S.ESME_ROK then old(acked) + [Received(SUBMIT_SM, cmd.request).value]
                       else old(acked)
    {
      var arrived;
      res, status, arrived := Submit.SendRequest(SUBMIT_SM, cmd.request);
      calls, last := calls + 1, (res, status);
      if res == ResultOk && status == S.ESME_ROK {
        acked := acked + [arrived.value];
      }
    }

    /** The retry loop: at most three tries, of which only the last can have succeeded. */
    method SendWithRetry(cmd: MessageCommand) returns (res: Result, status: int)
      requires cmd.Valid() && Good(SUBMIT_SM, cmd.request)
      modifies this`calls, this`last, this`acked
      ensures old(calls) < calls <= old(calls) + 3 && last == (res, status)
      ensures res != ResultOk ==> calls == old(calls) + 3
      ensures res == ResultOk ==> Received(SUBMIT_SM, cmd.request).Some?
      ensures acked == if res == ResultOk && status == S.ESME_ROK then old(acked) + [Received(SUBMIT_SM, cmd.request).value]
                       else old(acked)
    {
      var retry := 0;
      res, status := SendRequest(cmd);
      retry := retry + 1;
      while res != ResultOk && retry < 3
        invariant 1 <= retry <= 3 && calls == old(calls) + retry && last == (res, status)
        invariant res == ResultOk ==> Received(SUBMIT_SM, cmd.request).Some?
        invariant acked == if res == ResultOk && status == S.ESME_ROK then old(acked) + [Received(SUBMIT_SM, cmd.request).value]
                           else old(acked)
        decreases 3 - retry
      {
        res, status := SendRequest(cmd);
        retry := retry + 1;
      }
    }

    /** Builds the command for a text: the same in both branches of SendMessage. */
    method Build(from: seq<byte>, to: seq<byte>, text: seq<byte>, sar: Option<Sar>)
        returns (cmd: MessageCommand, ghost seqNo: nat)
      requires numbers.Valid()
      modifies numbers
      ensures numbers.Valid() && fresh(cmd) && cmd.Valid() && 1 <= seqNo < 0x1_0000_0000
      ensures cmd.request == Segment(SUBMIT_SM, seqNo, from, to, m_settings.coding, text, sar)
    {
      var rand: nat := *;
      var n := numbers.NextSequenceNumber(rand);
      seqNo := n;
      cmd := new MessageCommand(SUBMIT_SM, n);
      cmd.SetDestination(to, 0, 0);
      cmd.SetSourceAddress(from, 0, 0);
      cmd.SetText(text);
      cmd.SetDataCoding(m_settings.coding);
      if sar.Some? {
        cmd.SetConcatenatedMessageArgs(sar.value);
      }
    }

    /** Builds a command, sends it, and reads the answer. */
    method SendOne(from: seq<byte>, to: seq<byte>, text: seq<byte>, sar: Option<Sar>)
        returns (d: S.DeliveryResult, ghost one: seq<Struct>)
      requires numbers.Valid() && |text| <= MAX_PAYLOAD
      modifies this`calls, this`last, this`acked, numbers
      ensures numbers.Valid()
      ensures old(calls) < calls <= old(calls) + 3 && d == Verdict(last.0, last.1)
      ensures last.0 != ResultOk ==> calls == old(calls) + 3
      ensures acked == old(acked) + one && OneCarried(d, one, from, to, text, sar)
    {
      var cmd; ghost var seqNo;
      cmd, seqNo := Build(from, to, text, sar);
      ghost var s := cmd.request;
      SegmentCarries(seqNo, from, to, m_settings.coding, text, sar);
      var res, status;
      res, status := SendWithRetry(cmd);
      AppendNothing(old(acked));
      if res != ResultOk { return S.DeliveryUnknownError, []; }
      d := Handled(status);
      one := if status == S.ESME_ROK then [Received(SUBMIT_SM, s).value] else [];
      HandledOne(status, Received(SUBMIT_SM, s).value, from, to, text, sar);
    }

    /**
     * SendMessage, for the encoded text: ref is the reference that the segments share. Of the pieces of the text, those
     * acknowledged form a prefix, and each has arrived as it was; DELIVERY_OK says that all of them have, and any other
     * result is what the last try gave. Nothing is sent behind the first piece that is not acknowledged, and a piece is
     * given up only after three tries.
     */
    method SendMessage(from: seq<byte>, to: seq<byte>, text: seq<byte>)
        returns (d: S.DeliveryResult, ghost got: seq<Struct>, ghost ref: nat)
      requires numbers.Valid()
      modifies this`calls, this`last, this`acked, numbers
      ensures numbers.Valid()
      ensures acked == old(acked) + got
      ensures AllCarried(got, from, to, Pieces(m_settings, text), StatedTotal(m_settings, text), ref)
      ensures d == S.DeliveryOk <==> |got| == |Pieces(m_settings, text)|
      ensures if m_isBound then
                old(calls) < calls <= old(calls) + 3 * |Pieces(m_settings, text)| && d == Verdict(last.0, last.1)
              else calls == old(calls) && d == S.DeliveryUnknownError
      ensures m_isBound ==> calls <= old(calls) + 3 * |got| + 3
      ensures m_isBound && last.0 != ResultOk ==> calls >= old(calls) + |got| + 3
    {
      got, ref := [], 0;
      ghost var pieces := Pieces(m_settings, text);
      PiecesJoin(m_settings, text);
      if !m_isBound {
        AppendNothing(acked);
        return S.DeliveryUnknownError, got, ref;
      }
      if |text| <= MAX_PAYLOAD && (m_settings.enablePayload || |text| <= ShortLimit(m_settings)) {
        d, got := SendOne(from, to, text, None);
        CarriedNext([], got, from, to, pieces, None, ref, d);
        AppendNothing(got);
        return;
      }
      d, got, ref := SendSegments(from, to, text, SegmentLength(m_settings));
    }

    /** One turn of the loop over the segments. */
    method SendPiece(from: seq<byte>, to: seq<byte>, text: seq<byte>, i: nat, n: nat, sar: Option<Sar>,
                     ghost limit: nat, ghost k: nat)
        returns (d: S.DeliveryResult, ghost one: seq<Struct>)
      requires numbers.Valid() && 0 < limit <= MAX_PAYLOAD && k < |Cut(text, limit)|
      requires i == Index(|text|, limit, k) && n == if |text| - i < limit then |text| - i else limit
      modifies this`calls, this`last, this`acked, numbers
      ensures numbers.Valid()
      ensures old(calls) < calls <= old(calls) + 3 && d == Verdict(last.0, last.1)
      ensures last.0 != ResultOk ==> calls == old(calls) + 3
      ensures i < i + n == Index(|text|, limit, k + 1) && (k + 1 < |Cut(text, limit)| <==> i + n < |text|)
      ensures acked == old(acked) + one && OneCarried(d, one, from, to, Cut(text, limit)[k], sar)
    {
      NextPiece(text, limit, k);
      d, one := SendOne(from, to, text[i..i + n], sar);
    }

    /** sar_msg_ref_num and sar_total_segments as they are computed before the loop. */
    method Announce(text: seq<byte>, messageLength: nat) returns (refNum: nat, total: nat)
      requires numbers.Valid() && messageLength > 0
      modifies numbers
      ensures numbers.Valid() && (m_settings.enableConcatenation ==> total == |Cut(text, messageLength)|)
    {
      refNum, total := 0, 0;
      if m_settings.enableConcatenation {
        var rand: nat := *;
        refNum := numbers.NextSequenceNumber(rand);
        total := |text| / messageLength + if |text| % messageLength > 0 then 1 else 0;
        CutExactly(text, messageLength);
      }
    }

    /** The part of SendMessage for texts that are too long for one command; limit is the length of a segment. */
    method SendSegments(from: seq<byte>, to: seq<byte>, text: seq<byte>, limit: nat)
        returns (d: S.DeliveryResult, ghost got: seq<Struct>, ghost ref: nat)
      requires numbers.Valid() && 0 < limit <= MAX_PAYLOAD && text != []
      modifies this`calls, this`last, this`acked, numbers
      ensures numbers.Valid()
      ensures var pieces := Cut(text, limit);
              && old(calls) < calls <= old(calls) + 3 * |pieces|
              && acked == old(acked) + got
              && AllCarried(got, from, to, pieces, if m_settings.enableConcatenation then Some(|pieces|) else None, ref)
              && (d == S.DeliveryOk <==> |got| == |pieces|)
      ensures d == Verdict(last.0, last.1) && calls <= old(calls) + 3 * |got| + 3
      ensures last.0 != ResultOk ==> calls >= old(calls) + |got| + 3
    {
      ghost var pieces := Cut(text, limit);
      ghost var stated := if m_settings.enableConcatenation then Some(|pieces|) else None;
      var messageLength := limit;
      var number := 0;
      var refNum, total := Announce(text, messageLength);
      got, ref := [], refNum;
      AppendNothing(acked);
      var i := 0;
      ghost var k: nat := 0;
      while i < |text|
        invariant numbers.Valid()
        invariant i == Index(|text|, limit, k) && k <= |pieces| && (i < |text| <==> k < |pieces|)
        invariant i < |text| ==> messageLength == limit
        invariant m_settings.enableConcatenation ==> number == k
        invariant old(calls) + k <= calls <= old(calls) + 3 * k
        invariant k > 0 ==> Verdict(last.0, last.1) == S.DeliveryOk
        invariant acked == old(acked) + got && |got| == k && AllCarried(got, from, to, pieces, stated, ref)
        decreases |text| - i
      {
        if |text| - i < messageLength {
          messageLength := |text| - i;
        }
        var sar := None;
        if m_settings.enableConcatenation {
          number := number + 1;
          sar := Some(Sar(total, refNum, number));
        }
        assert sar == PlaceOf(stated, ref, k);
        ghost var one;
        d, one := SendPiece(from, to, text, i, messageLength, sar, limit, k);
        CarriedNext(got, one, from, to, pieces, stated, ref, d);
        AppendAssociates(old(acked), got, one);
        got := got + one;
        if d != S.DeliveryOk {
          return;
        }
        i := i + messageLength;
        k := k + 1;
      }
      d := S.DeliveryOk;
    }
  }

  /** The acknowledged commands carry the first pieces, each with its place. */
  ghost predicate AllCarried(acked: seq<Struct>, from: seq<byte>, to: seq<byte>, pieces: seq<seq<byte>>,
                             total: Option<nat>, ref: nat)
  {
    && |acked| <= |pieces|
    && forall k | 0 <= k < |acked| :: Carries(acked[k], from, to, pieces[k], PlaceOf(total, ref, k))
  }

  /** One more piece, carried when its delivery is DELIVERY_OK. */
  ghost predicate OneCarried(d: S.DeliveryResult, arrived: seq<Struct>, from: seq<byte>, to: seq<byte>,
                             text: seq<byte>, sar: Option<Sar>)
  {
    if d == S.DeliveryOk then |arrived| == 1 && Carries(arrived[0], from, to, text, sar) else arrived == []
  }

  lemma HandledOne(status: int, a: Struct, from: seq<byte>, to: seq<byte>, text: seq<byte>, sar: Option<Sar>)
    requires Carries(a, from, to, text, sar)
    ensures OneCarried(Handled(status), if status == S.ESME_ROK then [a] else [], from, to, text, sar)
  {
  }

  lemma CarriedNext(acked: seq<Struct>, one: seq<Struct>, from: seq<byte>, to: seq<byte>, pieces: seq<seq<byte>>,
                    total: Option<nat>, ref: nat, d: S.DeliveryResult)
    requires AllCarried(acked, from, to, pieces, total, ref) && |acked| < |pieces|
    requires OneCarried(d, one, from, to, pieces[|acked|], PlaceOf(total, ref, |acked|))
    ensures AllCarried(acked + one, from, to, pieces, total, ref)
    ensures |one| == if d == S.DeliveryOk then 1 else 0
  {
  }

  lemma SegmentCarries(seqNo: nat, from: seq<byte>, to: seq<byte>, coding: nat, text: seq<byte>, sar: Option<Sar>)
    requires 1 <= seqNo < 0x1_0000_0000 && |text| <= MAX_PAYLOAD
    ensures var s := Segment(SUBMIT_SM, seqNo, from, to, coding, text, sar);
            Good(SUBMIT_SM, s) && (Received(SUBMIT_SM, s).Some? ==> Carries(Received(SUBMIT_SM, s).value, from, to, text, sar))
  {
    SegmentArrives(SUBMIT_SM, seqNo, from, to, coding, text, sar);
  }

  // The whole message

  /** The texts that arrived, joined. */
  function ArrivedText(arrived: seq<Struct>): seq<byte> {
    if arrived == [] then [] else GetText(arrived[0]) + ArrivedText(arrived[1..])
  }

  lemma {:induction false} ArrivedJoins(arrived: seq<Struct>, pieces: seq<seq<byte>>)
    requires |arrived| <= |pieces| && forall k | 0 <= k < |arrived| :: GetText(arrived[k]) == pieces[k]
    ensures ArrivedText(arrived) == Concat(pieces[..|arrived|])
  {
    if arrived != [] {
      forall k | 0 <= k < |arrived[1..]| ensures GetText(arrived[1..][k]) == pieces[1..][k] {
        assert GetText(arrived[k + 1]) == pieces[k + 1];
      }
      ArrivedJoins(arrived[1..], pieces[1..]);
      assert pieces[..|arrived|][1..] == pieces[1..][..|arrived[1..]|];
    }
  }

  lemma {:induction false} ConcatPrefix(pieces: seq<seq<byte>>, n: nat)
    requires n <= |pieces|
    ensures Concat(pieces[..n]) <= Concat(pieces)
  {
    if n > 0 {
      ConcatPrefix(pieces[1..], n - 1);
      assert pieces[..n][1..] == pieces[1..][..n - 1];
    }
  }

  /**
   * What has arrived of a message is always a beginning of its text, and when every piece was acknowledged it is the
   * text; that cannot happen to a message that is not sendable.
   */
  lemma EndToEnd(m: Settings, from: seq<byte>, to: seq<byte>, text: seq<byte>, ref: nat, arrived: seq<Struct>)
    requires AllCarried(arrived, from, to, Pieces(m, text), StatedTotal(m, text), ref)
    ensures ArrivedText(arrived) <= text
    ensures |arrived| == |Pieces(m, text)| ==> ArrivedText(arrived) == text && Sendable(m, |text|)
  {
    var pieces := Pieces(m, text);
    PiecesJoin(m, text);
    CarriedTexts(arrived, from, to, pieces, StatedTotal(m, text), ref);
    ArrivedJoins(arrived, pieces);
    ConcatPrefix(pieces, |arrived|);
    if |arrived| == |pieces| {
      TakeAll(pieces);
      SendableExactly(m, text);
    }
  }

  lemma CarriedTexts(arrived: seq<Struct>, from: seq<byte>, to: seq<byte>, pieces: seq<seq<byte>>, total: Option<nat>,
                     ref: nat)
    requires AllCarried(arrived, from, to, pieces, total, ref)
    ensures forall k | 0 <= k < |arrived| :: GetText(arrived[k]) == pieces[k]
    ensures |arrived| == |pieces| ==> forall p | p in pieces :: |p| != MAX_SHORT
  {
    forall k | 0 <= k < |arrived| ensures GetText(arrived[k]) == pieces[k] && |pieces[k]| != MAX_SHORT {
      assert Carries(arrived[k], from, to, pieces[k], PlaceOf(total, ref, k));
    }
  }

  /**
   * The places in the segments of a message that has arrived whole: only the last says that no more follow, all share
   * one reference, and up to 255 segments are numbered from 1 to their total.
   */
  lemma PlacesArrive(from: seq<byte>, to: seq<byte>, pieces: seq<seq<byte>>, ref: nat, arrived: seq<Struct>, k: nat)
    requires AllCarried(arrived, from, to, pieces, Some(|pieces|), ref) && |arrived| == |pieces| && k < |arrived|
    ensures var (total, msgRef, number, more) := GetSar(arrived[k]);
            && (more == Some(Num(0)) <==> k + 1 == |arrived|)
            && msgRef == Some(Num(ref % 0x1_0000))
            && (|arrived| <= 255 ==> total == Some(Num(|arrived|)) && number == Some(Num(k + 1)))
  {
    assert Carries(arrived[k], from, to, pieces[k], PlaceOf(Some(|pieces|), ref, k));
    if |arrived| <= 255 { assert (k + 1) % 256 == k + 1 && |arrived| % 256 == |arrived|; }
  }
}
