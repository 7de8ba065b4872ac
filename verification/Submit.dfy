/** The submit_sm and deliver_sm commands of smppcommands.hpp: setters, getters, and what arrives at the other end. */
module Submit {
  import opened Bytes
  import opened Sequences
  import opened Params
  import opened Frames
  import opened Tokens
  import opened Pack
  import opened Unpack
  import opened RoundTrip
  import opened UnpackLoop
  import SendPdu

  /** The two commands that CSMPPSubmit is the template of here. */
  type MessageId = c: int | c == SUBMIT_SM || c == DELIVER_SM witness SUBMIT_SM

  function TableOf(c: MessageId): TlvTable {
    if c == SUBMIT_SM then SubmitSmTlv else DeliverSmTlv
  }

  function TimeSize(c: MessageId): pos {
    if c == SUBMIT_SM then 17 else 1
  }

  function FrameOf(c: MessageId): seq<Item> {
    FrameWith(TimeSize(c), TableOf(c))
  }

  function FrameWith(timeSize: pos, table: TlvTable): (f: seq<Item>)
    ensures |f| == 23
  {
    [
    Field("command_length", U32(AnyValue)),
    Field("command_id", U32(CommandId)),
    Field("command_status", U32(CommandStatus)),
    Field("sequence_number", U32(SequenceNumber)),
    Field("service_type", COctet(6)),
    Field("source_addr_ton", U08(Ton)),
    Field("source_addr_npi", U08(Npi)),
    Field("source_addr", COctet(21)),
    Field("dest_addr_ton", U08(Ton)),
    Field("dest_addr_npi", U08(Npi)),
    Field("destination_addr", COctet(21)),
    Field("esm_class", U08(AnyValue)),
    Field("protocol_id", U08(AnyValue)),
    Field("priority_flag", U08(AnyValue)),
    Field("schedule_delivery_time", COctet(timeSize)),
    Field("validity_period", COctet(timeSize)),
    Field("registered_delivery", U08(AnyValue)),
    Field("replace_if_present_flag", U08(AnyValue)),
    Field("data_coding", U08(AnyValue)),
    Field("sm_default_msg_id", U08(AnyValue)),
    Field("sm_length", U08(AnyValue)),
    Field("short_message", Octet8(254)),
    Tail("tlv", table)]
  }

  const SOURCE_TON := 5
  const SOURCE_NPI := 6
  const SOURCE_ADDR := 7
  const DESTINATION_TON := 8
  const DESTINATION_NPI := 9
  const DESTINATION_ADDR := 10
  const DATA_CODING := 18
  const SM_LENGTH := 20
  const SHORT_MESSAGE := 21
  const TLV := 22

  const MAX_SHORT := 254
  const MAX_PAYLOAD := 1024

  lemma SubmitFrame()
    ensures Frame(SUBMIT_SM) == Some(FrameWith(17, SubmitSmTlv))
  {
    assert Frame(SUBMIT_SM).value == FrameWith(17, SubmitSmTlv);
  }

  lemma DeliverFrame()
    ensures Frame(DELIVER_SM) == Some(FrameWith(1, DeliverSmTlv))
  {
    assert Frame(DELIVER_SM).value == FrameWith(1, DeliverSmTlv);
  }

  lemma FrameIs(c: MessageId)
    ensures Frame(c) == Some(FrameOf(c))
  {
    SubmitFrame();
    DeliverFrame();
  }

  // The setters

  /** snprintf into a field keeps one octet for the NUL. */
  function Printed(s: seq<byte>, size: pos): seq<byte> {
    Kept(CString(s), size)
  }

  /** A command that has just been constructed: all zero but for its id and its number. */
  function Fresh(c: MessageId, seqNo: nat): Struct {
    var zero, none := Leaf(Num(0)), Leaf(Octets([]));
    [zero, Leaf(Num(c)), zero, Leaf(Num(seqNo)),
     none, zero, zero, none, zero, zero, none,
     zero, zero, zero, none, none, zero, zero, zero, zero, zero, none, List([])]
  }

  function WithSource(s: Struct, from: seq<byte>, ton: nat, npi: nat): Struct
    requires |s| == 23
  {
    s[SOURCE_ADDR := Leaf(Octets(Printed(from, 21)))][SOURCE_TON := Leaf(Num(ton % 256))][SOURCE_NPI := Leaf(Num(npi % 256))]
  }

  /**
   * memcpy of at most the whole field. Read back as a C string, a field without a NUL ends where the next one, which is
   * zero, starts.
   */
  function WithDestination(s: Struct, to: seq<byte>, ton: nat, npi: nat): Struct
    requires |s| == 23
  {
    s[DESTINATION_ADDR := Leaf(Octets(CString(if |to| < 21 then to else to[..21])))]
     [DESTINATION_TON := Leaf(Num(ton % 256))][DESTINATION_NPI := Leaf(Num(npi % 256))]
  }

  function WithCoding(s: Struct, coding: nat): Struct
    requires |s| == 23
  {
    s[DATA_CODING := Leaf(Num(coding % 256))]
  }

  function Tlvs(s: Struct): seq<Record> {
    if |s| == 23 && s[TLV].List? then s[TLV].records else []
  }

  /** build_tlv puts the new record in front of the list. */
  function WithTlv(s: Struct, rec: Record): Struct
    requires |s| == 23
  {
    s[TLV := List([rec] + Tlvs(s))]
  }

  /** What a message keeps of a text: the size of a TLV's value at most. */
  function KeptText(text: seq<byte>): (kept: seq<byte>)
    ensures |kept| <= MAX_PAYLOAD && kept <= text
    ensures |text| <= MAX_PAYLOAD ==> kept == text
  {
    if |text| < MAX_PAYLOAD then text else text[..MAX_PAYLOAD]
  }

  function PayloadTlv(text: seq<byte>): Record {
    [Num(TLVID_message_payload), Num(|KeptText(text)|), Octets(KeptText(text))]
  }

  /** setText: up to 254 octets go into short_message, longer texts into a payload TLV of at most 1024. */
  function WithText(s: Struct, text: seq<byte>): Struct
    requires |s| == 23
  {
    if |text| <= MAX_SHORT then s[SM_LENGTH := Leaf(Num(|text|))][SHORT_MESSAGE := Leaf(Octets(text))]
    else WithTlv(s[SM_LENGTH := Leaf(Num(0))][SHORT_MESSAGE := Leaf(Octets([]))], PayloadTlv(text))
  }

  /** The number of segments, the reference of the message, and the number of the segment. */
  datatype Sar = Sar(total: nat, ref: nat, k: nat)

  function WithSar(s: Struct, sar: Sar): Struct
    requires |s| == 23
  {
    var s1 := WithTlv(s, [Num(TLVID_sar_total_segments), Num(1), Num(sar.total % 256)]);
    var s2 := WithTlv(s1, [Num(TLVID_sar_msg_ref_num), Num(2), Num(sar.ref % 0x1_0000)]);
    var s3 := WithTlv(s2, [Num(TLVID_sar_segment_seqnum), Num(1), Num(sar.k % 256)]);
    WithTlv(s3, [Num(TLVID_more_messages_to_send), Num(1), Num(if sar.total > sar.k then 1 else 0)])
  }

  // The getters

  /** The value of the last record with the tag, as a loop over the list leaves it. */
  function LastTlv(recs: seq<Record>, tag: nat): Option<Value> {
    if recs == [] then None
    else
      var last := recs[|recs| - 1];
      if |last| == 3 && last[0] == Num(tag) then Some(last[2]) else LastTlv(recs[..|recs| - 1], tag)
  }

  function OctetsOf(v: Value): seq<byte> {
    if v.Octets? then v.b else []
  }

  function GetText(s: Struct): seq<byte> {
    if |s| != 23 then []
    else if SlotNum(s[SM_LENGTH]) != 0 then (if s[SHORT_MESSAGE].Leaf? then OctetsOf(s[SHORT_MESSAGE].v) else [])
    else
      match LastTlv(Tlvs(s), TLVID_message_payload)
      case None => []
      case Some(v) => OctetsOf(v)
  }

  function GetString(s: Struct, i: nat): seq<byte> {
    if i < |s| && s[i].Leaf? then OctetsOf(s[i].v) else []
  }

  /** What a segment says about itself: total_segments, msg_ref_num, segment_seqnum, more_messages_to_send. */
  function GetSar(s: Struct): (Option<Value>, Option<Value>, Option<Value>, Option<Value>) {
    (LastTlv(Tlvs(s), TLVID_sar_total_segments), LastTlv(Tlvs(s), TLVID_sar_msg_ref_num),
     LastTlv(Tlvs(s), TLVID_sar_segment_seqnum), LastTlv(Tlvs(s), TLVID_more_messages_to_send))
  }

  /** CSMPPSubmitSingle and CSMPPDelivery, and the part of CSMPPCommand that their senders use. */
  class MessageCommand {
    var request: Struct

    ghost predicate Valid()
      reads this
    {
      |request| == 23
    }

    constructor (c: MessageId, seqNo: nat)
      ensures Valid() && request == Fresh(c, seqNo)
    {
      request := Fresh(c, seqNo);
    }

    method SetDestination(to: seq<byte>, ton: nat, npi: nat)
      requires Valid()
      modifies this
      ensures Valid() && request == WithDestination(old(request), to, ton, npi)
    {
      var bytesToCopy := if |to| < 21 then |to| else 21;
      assert |to| < 21 ==> to[..bytesToCopy] == to;
      request := request[DESTINATION_ADDR := Leaf(Octets(CString(to[..bytesToCopy])))];
      request := request[DESTINATION_TON := Leaf(Num(ton % 256))];
      request := request[DESTINATION_NPI := Leaf(Num(npi % 256))];
    }

    method SetSourceAddress(from: seq<byte>, ton: nat, npi: nat)
      requires Valid()
      modifies this
      ensures Valid() && request == WithSource(old(request), from, ton, npi)
    {
      request := request[SOURCE_ADDR := Leaf(Octets(Printed(from, 21)))];
      request := request[SOURCE_TON := Leaf(Num(ton % 256))];
      request := request[SOURCE_NPI := Leaf(Num(npi % 256))];
    }

    method SetDataCoding(coding: nat)
      requires Valid()
      modifies this
      ensures Valid() && request == WithCoding(old(request), coding)
    {
      request := request[DATA_CODING := Leaf(Num(coding % 256))];
    }

    method BuildTlv(rec: Record)
      requires Valid()
      modifies this
      ensures Valid() && request == WithTlv(old(request), rec)
    {
      request := request[TLV := List([rec] + Tlvs(request))];
    }

    method SetText(text: seq<byte>)
      requires Valid()
      modifies this
      ensures Valid() && request == WithText(old(request), text)
    {
      if |text| <= MAX_SHORT {
        request := request[SM_LENGTH := Leaf(Num(|text|))];
        request := request[SHORT_MESSAGE := Leaf(Octets(text))];
      } else {
        request := request[SM_LENGTH := Leaf(Num(0))][SHORT_MESSAGE := Leaf(Octets([]))];
        var length := if MAX_PAYLOAD > |text| then |text| else MAX_PAYLOAD;
        assert text[..length] == KeptText(text);
        BuildTlv([Num(TLVID_message_payload), Num(length), Octets(text[..length])]);
      }
    }

    method SetConcatenatedMessageArgs(sar: Sar)
      requires Valid()
      modifies this
      ensures Valid() && request == WithSar(old(request), sar)
    {
      BuildTlv([Num(TLVID_sar_total_segments), Num(1), Num(sar.total % 256)]);
      BuildTlv([Num(TLVID_sar_msg_ref_num), Num(2), Num(sar.ref % 0x1_0000)]);
      BuildTlv([Num(TLVID_sar_segment_seqnum), Num(1), Num(sar.k % 256)]);
      BuildTlv([Num(TLVID_more_messages_to_send), Num(1), Num(if sar.total > sar.k then 1 else 0)]);
    }

    /** getText walks the whole list: the last payload wins. */
    method ReadText() returns (res: seq<byte>)
      requires Valid() && request[SM_LENGTH].Leaf? && request[SHORT_MESSAGE].Leaf?
      ensures res == GetText(request)
    {
      res := [];
      if SlotNum(request[SM_LENGTH]) != 0 {
        res := OctetsOf(request[SHORT_MESSAGE].v);
      } else {
        var recs := Tlvs(request);
        var i := 0;
        while i < |recs|
          invariant 0 <= i <= |recs|
          invariant res == match LastTlv(recs[..i], TLVID_message_payload) case None => [] case Some(v) => OctetsOf(v)
        {
          assert recs[..i + 1][..i] == recs[..i];
          if |recs[i]| == 3 && recs[i][0] == Num(TLVID_message_payload) {
            res := OctetsOf(recs[i][2]);
          }
          i := i + 1;
        }
        assert recs[..i] == recs;
      }
    }
  }

  // Which commands can be packed

  predicate FieldGood(k: Kind, v: Value) {
    var t := Token(k, 0, v);
    (IsNumber(k) || k.COctet?) && Typed(t) && Fitting(t) && Accepted(t)
  }

  /** A TLV whose value has the width its tag prescribes. */
  predicate TlvGood(c: MessageId, rec: Record) {
    && |rec| == 3 && rec[0].Num? && rec[1].Num? && rec[0].n < 0x1_0000 && rec[1].n < 0x1_0000
    && var t := TlvValue(c, rec);
    && !t.kind.COctet? && !t.kind.Octet8? && Typed(t) && Accepted(t)
  }

  function TlvValue(c: MessageId, rec: Record): Token
    requires |rec| == 3 && rec[0].Num? && rec[1].Num?
  {
    MakeToken(TlvValueKind(TableOf(c), rec[0].n), rec[1].n, rec[2])
  }

  /** A command whose fields pass their validators, short_message apart. */
  ghost predicate Good(c: MessageId, s: Struct) {
    && |s| == 23
    && (forall i | 0 <= i < SHORT_MESSAGE :: s[i].Leaf? && FieldGood(FrameOf(c)[i].kind, s[i].v))
    && s[SHORT_MESSAGE].Leaf? && s[SHORT_MESSAGE].v.Octets?
    && |s[SHORT_MESSAGE].v.b| == SlotNum(s[SM_LENGTH]) <= MAX_SHORT
    && s[TLV].List? && forall rec | rec in s[TLV].records :: TlvGood(c, rec)
  }

  function TlvsOf(c: MessageId): RecordKind {
    TlvRecord(TableOf(c))
  }

  function TlvTokens(c: MessageId, rec: Record): seq<Token>
    requires |rec| == 3 && rec[0].Num? && rec[1].Num?
  {
    [Token(U16(AnyValue), 0, rec[0]), Token(U16(AnyValue), 0, rec[1]), TlvValue(c, rec)]
  }

  lemma TlvFlat(c: MessageId, rec: Record)
    requires TlvGood(c, rec)
    ensures FlattenRecord(TlvsOf(c), rec, 0) == TlvTokens(c, rec)
    ensures RecordShape(TlvsOf(c), rec, 0) && RecordTyped(TlvsOf(c), rec)
  {
    assert rec[..0] == [] && rec[..1] == [rec[0]] && rec[..2] == [rec[0], rec[1]] && rec[..3] == rec;
    assert FlattenRecord(TlvsOf(c), rec, 3) == [];
    assert FlattenRecord(TlvsOf(c), rec, 2) == [TlvValue(c, rec)];
    assert FlattenRecord(TlvsOf(c), rec, 1) == [Token(U16(AnyValue), 0, rec[1]), TlvValue(c, rec)];
    assert RecordShape(TlvsOf(c), rec, 2);
    assert RecordShape(TlvsOf(c), rec, 1);
  }

  /** At least the number of octets that the records take. */
  function TailSize(recs: seq<Record>): nat {
    if recs == [] then 0
    else 4 + (if |recs[0]| == 3 && recs[0][2].Octets? then |recs[0][2].b| else 4) + TailSize(recs[1..])
  }

  lemma EncodeThree(a: Token, b: Token, c: Token)
    requires AllTyped([a, b, c])
    ensures EncodeAll([a, b, c]) == Encoding(a) + Encoding(b) + Encoding(c)
  {
    var ts := [a, b, c];
    assert ts[1..] == [b, c] && [b, c][1..] == [c] && [c][1..] == [];
    assert EncodeAll([c]) == Encoding(c) + [];
    assert EncodeAll([b, c]) == Encoding(b) + EncodeAll([c]);
    assert ts[0] == a && ts[1] == b && ts[2] == c;
  }

  lemma TlvFits(c: MessageId, rec: Record)
    requires TlvGood(c, rec)
    ensures AllTyped(TlvTokens(c, rec)) && AllAccepted(TlvTokens(c, rec))
    ensures |EncodeAll(TlvTokens(c, rec))| <= 4 + if rec[2].Octets? then |rec[2].b| else 4
  {
    assert Pow256(2) == 256 * Pow256(1) && Pow256(1) == 256 * Pow256(0);
    EncodeThree(Token(U16(AnyValue), 0, rec[0]), Token(U16(AnyValue), 0, rec[1]), TlvValue(c, rec));
  }

  lemma {:induction false} TailFits(c: MessageId, recs: seq<Record>)
    requires forall rec | rec in recs :: TlvGood(c, rec)
    ensures var ts := FlattenList(TlvsOf(c), recs);
            && AllTyped(ts) && AllAccepted(ts) && (forall t | t in ts :: !t.kind.COctet?)
            && |EncodeAll(ts)| <= TailSize(recs)
  {
    if recs != [] {
      TailFits(c, recs[1..]);
      TlvFlat(c, recs[0]);
      TlvFits(c, recs[0]);
      EncodeConcat(TlvTokens(c, recs[0]), FlattenList(TlvsOf(c), recs[1..]));
    }
  }

  /** No field but the texts takes more than 21 octets. */
  const WIDEST := 21

  lemma FieldFits(k: Kind, v: Value)
    requires FieldGood(k, v) && (k.COctet? ==> k.size <= WIDEST)
    ensures |Encoding(Token(k, 0, v))| <= WIDEST
  {
  }

  lemma NarrowFields(c: MessageId, i: nat)
    requires i < SHORT_MESSAGE
    ensures FrameOf(c)[i].Field? && (FrameOf(c)[i].kind.COctet? ==> FrameOf(c)[i].kind.size <= WIDEST)
  {
  }

  /** From slot i on: everything is typed and accepted, but for a short message of full length. */
  ghost predicate Fits(c: MessageId, s: Struct, i: nat)
    requires |s| == 23 && i <= 23
  {
    var ts := Flatten(FrameOf(c), s, i);
    && AllTyped(ts)
    && (forall t | t in ts :: Fitting(t))
    && (AllAccepted(ts) <==> i > SHORT_MESSAGE || SlotNum(s[SM_LENGTH]) < MAX_SHORT)
    && |EncodeAll(ts)| <= Bound(s, i)
  }

  function Bound(s: Struct, i: nat): nat
    requires |s| == 23
  {
    (if i < SHORT_MESSAGE then WIDEST * (SHORT_MESSAGE - i) else 0)
    + (if i <= SHORT_MESSAGE then SlotNum(s[SM_LENGTH]) else 0) + (if i <= TLV then TailSize(Tlvs(s)) else 0)
  }

  lemma OneToken(c: MessageId, s: Struct, i: nat, t: Token)
    requires |s| == 23 && i < 22 && FlattenSlot(FrameOf(c)[i], PrevNum(s, i), s[i]) == [t]
    requires AllTyped(Flatten(FrameOf(c), s, i + 1)) && Typed(t)
    ensures var ts, rest := Flatten(FrameOf(c), s, i), Flatten(FrameOf(c), s, i + 1);
            && AllTyped(ts) && ts == [t] + rest && EncodeAll(ts) == Encoding(t) + EncodeAll(rest)
            && (AllAccepted(ts) <==> Accepted(t) && AllAccepted(rest))
  {
    var ts, rest := Flatten(FrameOf(c), s, i), Flatten(FrameOf(c), s, i + 1);
    assert ts == [t] + rest;
    Appended([t], rest);
    forall x | x in ts ensures Typed(x) {}
    assert t in ts && forall x | x in rest :: x in ts;
  }

  lemma {:induction false} FitsFrom(c: MessageId, s: Struct, i: nat)
    requires Good(c, s) && i <= 23
    ensures Fits(c, s, i)
    decreases 23 - i
  {
    if i == 23 {
    } else {
      FitsFrom(c, s, i + 1);
      if i == TLV {
        TailFits(c, s[TLV].records);
        TailFlat(c, s);
      } else if i == SHORT_MESSAGE {
        OneToken(c, s, i, Token(Octet8(254), SlotNum(s[SM_LENGTH]), s[i].v));
      } else {
        NarrowFields(c, i);
        FieldFits(FrameOf(c)[i].kind, s[i].v);
        OneToken(c, s, i, Token(FrameOf(c)[i].kind, 0, s[i].v));
      }
    }
  }

  lemma SlotGood(c: MessageId, s: Struct, i: nat)
    requires Good(c, s) && i < 23
    ensures SlotTyped(FrameOf(c)[i], PrevNum(s, i), s[i]) && CountMatches(FrameOf(c)[i], PrevNum(s, i), s[i])
  {
    if i < SHORT_MESSAGE {
      NarrowFields(c, i);
    } else if i == TLV {
      forall rec | rec in s[TLV].records ensures RecordTyped(TlvsOf(c), rec) { TlvFlat(c, rec); }
    }
  }

  lemma GoodStruct(c: MessageId, s: Struct)
    requires Good(c, s)
    ensures StructTyped(FrameOf(c), s) && CountsMatch(FrameOf(c), s)
  {
    forall i | 0 <= i < |s|
      ensures SlotTyped(FrameOf(c)[i], PrevNum(s, i), s[i]) && CountMatches(FrameOf(c)[i], PrevNum(s, i), s[i])
    {
      SlotGood(c, s, i);
    }
  }

  lemma GoodTyped(c: MessageId, s: Struct)
    requires Good(c, s)
    ensures StructTyped(FrameOf(c), s) && CountsMatch(FrameOf(c), s)
    ensures CommandTyped(c, s)
  {
    FrameIs(c);
    GoodStruct(c, s);
  }

  lemma EndsPlainCons(t: Token, rest: seq<Token>)
    requires if rest == [] then !t.kind.COctet? else EndsPlain(rest)
    ensures EndsPlain([t] + rest)
  {
  }

  lemma {:induction false} LastField(c: MessageId, s: Struct, i: nat)
    requires Good(c, s) && i <= SHORT_MESSAGE
    ensures EndsPlain(Flatten(FrameOf(c), s, i))
    decreases SHORT_MESSAGE - i
  {
    FitsFrom(c, s, i + 1);
    var rest := Flatten(FrameOf(c), s, i + 1);
    if i == SHORT_MESSAGE {
      TailFits(c, s[TLV].records);
      TailFlat(c, s);
      var t := Token(Octet8(254), SlotNum(s[SM_LENGTH]), s[i].v);
      OneToken(c, s, i, t);
      if rest != [] { assert rest[|rest| - 1] in rest; }
      EndsPlainCons(t, rest);
    } else {
      LastField(c, s, i + 1);
      NarrowFields(c, i);
      var t := Token(FrameOf(c)[i].kind, 0, s[i].v);
      OneToken(c, s, i, t);
      EndsPlainCons(t, rest);
    }
  }

  lemma TailFlat(c: MessageId, s: Struct)
    requires Good(c, s)
    ensures Flatten(FrameOf(c), s, TLV) == FlattenList(TlvsOf(c), s[TLV].records)
  {
    assert Flatten(FrameOf(c), s, 23) == [];
    AppendNothing(FlattenList(TlvsOf(c), s[TLV].records));
  }

  /** The number of octets that the command is written as. */
  ghost function PduSize(c: MessageId, s: Struct): nat
    requires Good(c, s)
  {
    GoodTyped(c, s);
    FlattenTyped(FrameOf(c), s, 0);
    |EncodeAll(Flatten(FrameOf(c), s, 0))|
  }

  /** SendPDU can pack a message exactly when its short message is not of full length and it has at most 4095 octets. */
  lemma PackableExactly(c: MessageId, s: Struct)
    requires Good(c, s)
    ensures CommandTyped(c, s)
    ensures Packed(c, s, SendPdu.LAST_SIZE).Some?
            <==> SlotNum(s[SM_LENGTH]) != MAX_SHORT && PduSize(c, s) < SendPdu.LAST_SIZE
  {
    GoodTyped(c, s);
    FrameIs(c);
    FitsFrom(c, s, 0);
    LastField(c, s, 0);
    RoomExactly(Flatten(FrameOf(c), s, 0), SendPdu.LAST_SIZE);
  }

  /** How large a message can get, by its texts. */
  lemma SizeBelow(c: MessageId, s: Struct)
    requires Good(c, s)
    ensures PduSize(c, s) <= WIDEST * SHORT_MESSAGE + SlotNum(s[SM_LENGTH]) + TailSize(Tlvs(s))
  {
    FitsFrom(c, s, 0);
  }

  // Strings that fill their field

  /** A string that leaves no room for its NUL loses its last octet. */
  function CutSlot(item: Item, slot: Slot): Slot {
    if item.Field? && item.kind.COctet? && slot.Leaf? && slot.v.Octets? then Leaf(Octets(Kept(slot.v.b, item.kind.size)))
    else slot
  }

  function CutStrings(c: MessageId, s: Struct): (r: Struct)
    requires |s| == 23
    ensures |r| == 23 && forall i | 0 <= i < 23 :: r[i] == CutSlot(FrameOf(c)[i], s[i])
  {
    seq(23, i requires 0 <= i < 23 => CutSlot(FrameOf(c)[i], s[i]))
  }

  lemma CutField(c: MessageId, s: Struct, i: nat)
    requires Good(c, s) && i < SHORT_MESSAGE
    ensures var r := CutSlot(FrameOf(c)[i], s[i]);
            && r.Leaf? && FieldGood(FrameOf(c)[i].kind, r.v) && Terminated(Token(FrameOf(c)[i].kind, 0, r.v))
            && Encoding(Token(FrameOf(c)[i].kind, 0, r.v)) == Encoding(Token(FrameOf(c)[i].kind, 0, s[i].v))
            && (IsNumber(FrameOf(c)[i].kind) ==> r == s[i])
  {
    NarrowFields(c, i);
  }

  lemma TextFields(c: MessageId)
    ensures FrameOf(c)[SM_LENGTH].kind == U08(AnyValue) && FrameOf(c)[SHORT_MESSAGE].kind == Octet8(254)
    ensures FrameOf(c)[TLV] == Tail("tlv", TableOf(c))
  {
  }

  lemma CutGood(c: MessageId, s: Struct)
    requires Good(c, s)
    ensures var r := CutStrings(c, s);
            && Good(c, r) && r[SM_LENGTH] == s[SM_LENGTH] && r[SHORT_MESSAGE] == s[SHORT_MESSAGE] && r[TLV] == s[TLV]
  {
    var r := CutStrings(c, s);
    TextFields(c);
    CutField(c, s, SM_LENGTH);
    forall i | 0 <= i < SHORT_MESSAGE ensures r[i].Leaf? && FieldGood(FrameOf(c)[i].kind, r[i].v) {
      CutField(c, s, i);
    }
  }

  /** From slot i on, the cut command is written as the command itself. */
  ghost predicate SameOctets(c: MessageId, s: Struct, i: nat)
    requires |s| == 23 && i <= 23
  {
    var ts, us := Flatten(FrameOf(c), s, i), Flatten(FrameOf(c), CutStrings(c, s), i);
    AllTyped(ts) && AllTyped(us) && EncodeAll(us) == EncodeAll(ts) && forall t | t in us :: Terminated(t)
  }

  lemma SameWithField(c: MessageId, s: Struct, i: nat, t: Token, u: Token)
    requires |s| == 23 && i < 22 && SameOctets(c, s, i + 1)
    requires FlattenSlot(FrameOf(c)[i], PrevNum(s, i), s[i]) == [t]
    requires FlattenSlot(FrameOf(c)[i], PrevNum(CutStrings(c, s), i), CutStrings(c, s)[i]) == [u]
    requires Typed(t) && Typed(u) && Terminated(u) && Encoding(t) == Encoding(u)
    ensures SameOctets(c, s, i)
  {
    OneToken(c, s, i, t);
    OneToken(c, CutStrings(c, s), i, u);
  }

  lemma {:induction false} CutEncodes(c: MessageId, s: Struct, i: nat)
    requires Good(c, s) && i <= TLV
    ensures SameOctets(c, s, i)
    decreases TLV - i
  {
    CutGood(c, s);
    if i == TLV {
      TailFits(c, s[TLV].records);
      TailFlat(c, s);
      TailFlat(c, CutStrings(c, s));
    } else {
      CutEncodes(c, s, i + 1);
      if i == SHORT_MESSAGE {
        TextFields(c);
        var t := Token(Octet8(254), SlotNum(s[SM_LENGTH]), s[i].v);
        SameWithField(c, s, i, t, t);
      } else {
        NarrowFields(c, i);
        CutField(c, s, i);
        var k := FrameOf(c)[i].kind;
        SameWithField(c, s, i, Token(k, 0, s[i].v), Token(k, 0, CutStrings(c, s)[i].v));
      }
    }
  }

  // What arrives

  /** The command as the other end unpacks it, when SendPDU could pack it. */
  ghost function Received(c: MessageId, s: Struct): Option<Struct>
    requires Good(c, s)
  {
    GoodTyped(c, s);
    match Packed(c, s, SendPdu.LAST_SIZE)
    case None => None
    case Some(o) => Unpacked(c, o)
  }

  /** The last record with the tag is the one whose value is read, and nothing is when there is none. */
  lemma {:induction false} LastWithTag(recs: seq<Record>, tag: nat, i: nat)
    requires i < |recs| && forall k | i < k < |recs| :: !(|recs[k]| == 3 && recs[k][0] == Num(tag))
    ensures |recs[i]| == 3 && recs[i][0] == Num(tag) ==> LastTlv(recs, tag) == Some(recs[i][2])
    ensures i == 0 && !(|recs[0]| == 3 && recs[0][0] == Num(tag)) ==> LastTlv(recs, tag) == None
    decreases |recs|
  {
    if i < |recs| - 1 {
      LastWithTag(recs[..|recs| - 1], tag, i);
    }
  }

  lemma {:induction false} LastIsFirst(recs: seq<Record>, tag: nat)
    ensures LastTlv(Reverse(recs), tag)
            == if recs == [] then None
               else if |recs[0]| == 3 && recs[0][0] == Num(tag) then Some(recs[0][2])
               else LastTlv(Reverse(recs[1..]), tag)
  {
    if recs != [] {
      var r := Reverse(recs);
      assert r[..|r| - 1] == Reverse(recs[1..]);
    }
  }

  lemma ReversedMessage(c: MessageId, s: Struct, n: nat)
    requires Good(c, s)
    ensures var r := Reversed(SetLength(s, n));
            && |r| == 23 && Tlvs(r) == Reverse(Tlvs(s)) && forall i | 0 < i < TLV :: r[i] == s[i]
  {
    var u := SetLength(s, n);
    var r := Reversed(u);
    forall i | 0 < i < TLV ensures r[i] == s[i] {
      assert s[i].Leaf?;
    }
    assert u[TLV] == s[TLV];
  }

  /** Packing does not see more of a string than its field keeps. */
  lemma PackedIsCut(c: MessageId, s: Struct)
    requires Good(c, s) && CommandTyped(c, s) && Packed(c, s, SendPdu.LAST_SIZE).Some?
    ensures var r := CutStrings(c, s);
            && Good(c, r) && CommandTyped(c, r) && CommandTerminated(c, r)
            && Packed(c, r, SendPdu.LAST_SIZE) == Packed(c, s, SendPdu.LAST_SIZE)
  {
    var r := CutStrings(c, s);
    FrameIs(c);
    CutGood(c, s);
    GoodTyped(c, r);
    CutEncodes(c, s, 0);
    PackableExactly(c, s);
    PackableExactly(c, r);
    PackedIsEncoded(Flatten(FrameOf(c), s, 0), SendPdu.LAST_SIZE);
    PackedIsEncoded(Flatten(FrameOf(c), r, 0), SendPdu.LAST_SIZE);
  }

  lemma ReceivedFrom(c: MessageId, s: Struct, o: Option<seq<byte>>)
    requires Good(c, s) && CommandTyped(c, s) && o == Packed(c, s, SendPdu.LAST_SIZE) && o.Some?
    ensures |s| == 23 && Received(c, s) == Some(Reversed(SetLength(CutStrings(c, s), |o.value|)))
  {
    PackedIsCut(c, s);
    FrameIs(c);
    GoodTyped(c, CutStrings(c, s));
    PrinterThenParser(c, CutStrings(c, s), SendPdu.LAST_SIZE, []);
    AppendNothing(o.value);
  }

  /**
   * All that the other end gets: every field as it was sent, strings cut to their fields, the records in the opposite
   * order; and nothing when the short message is of full length or the message has more than 4095 octets.
   */
  lemma ReceivedIsSent(c: MessageId, s: Struct)
    requires Good(c, s)
    ensures Received(c, s).Some? <==> SlotNum(s[SM_LENGTH]) != MAX_SHORT && PduSize(c, s) < SendPdu.LAST_SIZE
    ensures Received(c, s).Some? ==>
              var r := Received(c, s).value;
              && |r| == 23 && Tlvs(r) == Reverse(Tlvs(s))
              && forall i | 0 < i < TLV :: r[i] == CutSlot(FrameOf(c)[i], s[i])
  {
    PackableExactly(c, s);
    var o := Packed(c, s, SendPdu.LAST_SIZE);
    if o.Some? {
      ReceivedFrom(c, s, o);
      CutGood(c, s);
      ReversedMessage(c, CutStrings(c, s), |o.value|);
    }
  }

  // A message or one of its segments

  /** The command that carries a text, and the place of the text in a longer one. */
  function Segment(c: MessageId, seqNo: nat, from: seq<byte>, to: seq<byte>, coding: nat, text: seq<byte>,
                   sar: Option<Sar>): Struct
  {
    var s := WithCoding(WithText(WithSource(WithDestination(Fresh(c, seqNo), to, 0, 0), from, 0, 0), text), coding);
    if sar.Some? then WithSar(s, sar.value) else s
  }

  lemma ZeroGood(k: Kind)
    requires k in {U32(AnyValue), U32(CommandStatus), U08(Ton), U08(Npi), U08(AnyValue)} || k.COctet?
    ensures FieldGood(k, if k.COctet? then Octets([]) else Num(0))
  {
    PowerOfFour();
    assert Pow256(1) == 256 * Pow256(0);
  }

  lemma HeaderGood(c: MessageId, seqNo: nat)
    requires 1 <= seqNo < 0x1_0000_0000
    ensures FieldGood(U32(CommandId), Num(c)) && FieldGood(U32(SequenceNumber), Num(seqNo))
  {
    PowerOfFour();
    assert IsCommandId(SUBMIT_SM) && IsCommandId(DELIVER_SM);
  }

  lemma FreshKind(c: MessageId, i: nat)
    requires i < SHORT_MESSAGE && i != 1 && i != 3
    ensures var k := FrameOf(c)[i].kind;
            if i in {4, 7, 10, 14, 15} then k.COctet?
            else k in {U32(AnyValue), U32(CommandStatus), U08(Ton), U08(Npi), U08(AnyValue)}
  {
  }

  lemma FreshValue(c: MessageId, seqNo: nat, i: nat)
    requires i < SHORT_MESSAGE && i != 1 && i != 3
    ensures Fresh(c, seqNo)[i] == Leaf(if i in {4, 7, 10, 14, 15} then Octets([]) else Num(0))
  {
  }

  lemma FreshField(c: MessageId, i: nat, k: Kind, slot: Slot, seqNo: nat)
    requires 1 <= seqNo < 0x1_0000_0000 && i < SHORT_MESSAGE
    requires if i == 1 then k == U32(CommandId) && slot == Leaf(Num(c))
             else if i == 3 then k == U32(SequenceNumber) && slot == Leaf(Num(seqNo))
             else if k.COctet? then slot == Leaf(Octets([]))
             else k in {U32(AnyValue), U32(CommandStatus), U08(Ton), U08(Npi), U08(AnyValue)} && slot == Leaf(Num(0))
    ensures slot.Leaf? && FieldGood(k, slot.v)
  {
    if i == 1 || i == 3 { HeaderGood(c, seqNo); } else { ZeroGood(k); }
  }

  lemma FreshGood(c: MessageId, seqNo: nat)
    requires 1 <= seqNo < 0x1_0000_0000
    ensures Good(c, Fresh(c, seqNo)) && Tlvs(Fresh(c, seqNo)) == []
  {
    var s := Fresh(c, seqNo);
    forall i | 0 <= i < SHORT_MESSAGE ensures s[i].Leaf? && FieldGood(FrameOf(c)[i].kind, s[i].v) {
      if i != 1 && i != 3 {
        FreshKind(c, i);
        FreshValue(c, seqNo, i);
      }
      FreshField(c, i, FrameOf(c)[i].kind, s[i], seqNo);
    }
  }

  /** Setting a field to a good value. */
  lemma FieldSet(c: MessageId, s: Struct, i: nat, v: Value)
    requires Good(c, s) && i < SM_LENGTH && FieldGood(FrameOf(c)[i].kind, v)
    ensures Good(c, s[i := Leaf(v)]) && Tlvs(s[i := Leaf(v)]) == Tlvs(s)
  {
  }

  lemma TlvSet(c: MessageId, s: Struct, rec: Record)
    requires Good(c, s) && TlvGood(c, rec)
    ensures Good(c, WithTlv(s, rec)) && Tlvs(WithTlv(s, rec)) == [rec] + Tlvs(s)
  {
  }

  lemma TextGood(c: MessageId, s: Struct, text: seq<byte>)
    requires Good(c, s)
    ensures Good(c, WithText(s, text))
    ensures Tlvs(WithText(s, text)) == if |text| <= MAX_SHORT then Tlvs(s) else [PayloadTlv(text)] + Tlvs(s)
  {
    assert Pow256(1) == 256 * Pow256(0);
    if |text| > MAX_SHORT {
      var s1 := s[SM_LENGTH := Leaf(Num(0))][SHORT_MESSAGE := Leaf(Octets([]))];
      assert Good(c, s1);
      assert TlvGood(c, PayloadTlv(text));
      TlvSet(c, s1, PayloadTlv(text));
    }
  }

  function SarTlvs(sar: Sar): seq<Record> {
    [[Num(TLVID_more_messages_to_send), Num(1), Num(if sar.total > sar.k then 1 else 0)],
     [Num(TLVID_sar_segment_seqnum), Num(1), Num(sar.k % 256)],
     [Num(TLVID_sar_msg_ref_num), Num(2), Num(sar.ref % 0x1_0000)],
     [Num(TLVID_sar_total_segments), Num(1), Num(sar.total % 256)]]
  }

  lemma SarRecordsGood(sar: Sar)
    ensures forall rec | rec in SarTlvs(sar) :: TlvGood(SUBMIT_SM, rec)
  {
    assert Pow256(2) == 256 * Pow256(1) && Pow256(1) == 256 * Pow256(0);
    var r := SarTlvs(sar);
    assert TlvGood(SUBMIT_SM, r[0]) && TlvGood(SUBMIT_SM, r[1]);
    assert TlvGood(SUBMIT_SM, r[2]) && TlvGood(SUBMIT_SM, r[3]);
  }

  lemma OthersKept(s: Struct, rec: Record)
    requires |s| == 23
    ensures forall i | 0 <= i < TLV :: WithTlv(s, rec)[i] == s[i]
  {
  }

  lemma SarGood(c: MessageId, s: Struct, sar: Sar)
    requires Good(c, s) && c == SUBMIT_SM
    ensures Good(c, WithSar(s, sar)) && Tlvs(WithSar(s, sar)) == SarTlvs(sar) + Tlvs(s)
    ensures forall i | 0 <= i < TLV :: WithSar(s, sar)[i] == s[i]
  {
    SarRecordsGood(sar);
    var r := SarTlvs(sar);
    assert r[0] in r && r[1] in r && r[2] in r && r[3] in r;
    var s1 := WithTlv(s, r[3]);
    TlvSet(c, s, r[3]);
    OthersKept(s, r[3]);
    var s2 := WithTlv(s1, r[2]);
    TlvSet(c, s1, r[2]);
    OthersKept(s1, r[2]);
    var s3 := WithTlv(s2, r[1]);
    TlvSet(c, s2, r[1]);
    OthersKept(s2, r[1]);
    TlvSet(c, s3, r[0]);
    OthersKept(s3, r[0]);
    assert WithSar(s, sar) == WithTlv(s3, r[0]);
    FourInFront(r, Tlvs(s));
  }

  lemma FourInFront(r: seq<Record>, l: seq<Record>)
    requires |r| == 4
    ensures [r[0]] + ([r[1]] + ([r[2]] + ([r[3]] + l))) == r + l
  {
  }

  lemma NumberGood(c: MessageId, i: nat, n: nat)
    requires i < SHORT_MESSAGE && IsNumber(FrameOf(c)[i].kind) && n < 256
    requires (n == 0 && FrameOf(c)[i].kind in {U08(Ton), U08(Npi)}) || FrameOf(c)[i].kind == U08(AnyValue)
    ensures FieldGood(FrameOf(c)[i].kind, Num(n))
  {
    assert Pow256(1) == 256 * Pow256(0);
  }

  lemma AddressFields(c: MessageId)
    ensures FrameOf(c)[SOURCE_TON].kind == FrameOf(c)[DESTINATION_TON].kind == U08(Ton)
    ensures FrameOf(c)[SOURCE_NPI].kind == FrameOf(c)[DESTINATION_NPI].kind == U08(Npi)
    ensures FrameOf(c)[SOURCE_ADDR].kind == FrameOf(c)[DESTINATION_ADDR].kind == COctet(21)
    ensures FrameOf(c)[DATA_CODING].kind == U08(AnyValue)
  {
  }

  /** The destination as setDestination leaves it: at most the whole field. */
  function Copied(to: seq<byte>): seq<byte> {
    CString(if |to| < 21 then to else to[..21])
  }

  lemma DestinationGood(c: MessageId, s: Struct, to: seq<byte>)
    requires Good(c, s)
    ensures var r := WithDestination(s, to, 0, 0);
            Good(c, r) && Tlvs(r) == Tlvs(s) && r[DESTINATION_ADDR] == Leaf(Octets(Copied(to)))
  {
    AddressFields(c);
    NumberGood(c, DESTINATION_TON, 0);
    NumberGood(c, DESTINATION_NPI, 0);
    var s1 := s[DESTINATION_ADDR := Leaf(Octets(Copied(to)))];
    FieldSet(c, s, DESTINATION_ADDR, Octets(Copied(to)));
    var s2 := s1[DESTINATION_TON := Leaf(Num(0))];
    FieldSet(c, s1, DESTINATION_TON, Num(0));
    FieldSet(c, s2, DESTINATION_NPI, Num(0));
  }

  lemma SourceGood(c: MessageId, s: Struct, from: seq<byte>)
    requires Good(c, s)
    ensures var r := WithSource(s, from, 0, 0);
            && Good(c, r) && Tlvs(r) == Tlvs(s) && r[SOURCE_ADDR] == Leaf(Octets(Printed(from, 21)))
            && r[DESTINATION_ADDR] == s[DESTINATION_ADDR]
  {
    AddressFields(c);
    NumberGood(c, SOURCE_TON, 0);
    NumberGood(c, SOURCE_NPI, 0);
    var kept := Printed(from, 21);
    assert 0 !in kept && |kept| < 21;
    var s1 := s[SOURCE_ADDR := Leaf(Octets(kept))];
    FieldSet(c, s, SOURCE_ADDR, Octets(kept));
    var s2 := s1[SOURCE_TON := Leaf(Num(0))];
    FieldSet(c, s1, SOURCE_TON, Num(0));
    FieldSet(c, s2, SOURCE_NPI, Num(0));
  }

  /** What arrives of a destination is what snprintf would have kept of it. */
  lemma CopiedIsPrinted(to: seq<byte>)
    ensures Kept(Copied(to), 21) == Printed(to, 21)
  {
    var n := NulFrom(to, 0);
    if |to| >= 21 {
      if n < 21 {
        NulFound(to[..21], 0, n);
        assert to[..21][..n] == to[..n];
      } else {
        forall i | 0 <= i < 21 ensures to[i] != 0 {
          assert to[i] in to[0..n];
        }
        assert to[..21][..21] == to[..21] && to[..21][..20] == to[..20] && to[..n][..20] == to[..20];
      }
    }
  }

  /** What is set besides the payload. */
  ghost predicate Carrying(s: Struct, from: seq<byte>, to: seq<byte>, text: seq<byte>)
    requires |s| == 23
  {
    && s[SM_LENGTH] == Leaf(Num(if |text| <= MAX_SHORT then |text| else 0))
    && s[SHORT_MESSAGE] == Leaf(Octets(if |text| <= MAX_SHORT then text else []))
    && s[SOURCE_ADDR] == Leaf(Octets(Printed(from, 21))) && s[DESTINATION_ADDR] == Leaf(Octets(Copied(to)))
  }

  lemma TextKeepsAddresses(s: Struct, text: seq<byte>, coding: nat, from: seq<byte>, to: seq<byte>)
    requires |s| == 23
    requires s[SOURCE_ADDR] == Leaf(Octets(Printed(from, 21))) && s[DESTINATION_ADDR] == Leaf(Octets(Copied(to)))
    ensures Carrying(WithCoding(WithText(s, text), coding), from, to, text)
  {
  }

  lemma CodingGood(c: MessageId, s: Struct, coding: nat)
    requires Good(c, s)
    ensures Good(c, WithCoding(s, coding)) && Tlvs(WithCoding(s, coding)) == Tlvs(s)
  {
    AddressFields(c);
    NumberGood(c, DATA_CODING, coding % 256);
    FieldSet(c, s, DATA_CODING, Num(coding % 256));
  }

  lemma WholeGood(c: MessageId, seqNo: nat, from: seq<byte>, to: seq<byte>, coding: nat, text: seq<byte>)
    requires 1 <= seqNo < 0x1_0000_0000
    ensures var s := Segment(c, seqNo, from, to, coding, text, None);
            && Good(c, s) && Tlvs(s) == PayloadTlvs(if |text| <= MAX_SHORT then None else Some(text))
            && Carrying(s, from, to, text)
  {
    FreshGood(c, seqNo);
    var s0 := WithDestination(Fresh(c, seqNo), to, 0, 0);
    DestinationGood(c, Fresh(c, seqNo), to);
    var s1 := WithSource(s0, from, 0, 0);
    SourceGood(c, s0, from);
    TextGood(c, s1, text);
    CodingGood(c, WithText(s1, text), coding);
    TextKeepsAddresses(s1, text, coding, from, to);
    AppendNothing(PayloadTlvs(if |text| <= MAX_SHORT then None else Some(text)));
  }

  lemma SegmentGood(c: MessageId, seqNo: nat, from: seq<byte>, to: seq<byte>, coding: nat, text: seq<byte>,
                    sar: Option<Sar>)
    requires 1 <= seqNo < 0x1_0000_0000 && (sar.Some? ==> c == SUBMIT_SM)
    ensures var s := Segment(c, seqNo, from, to, coding, text, sar);
            var whole := Segment(c, seqNo, from, to, coding, text, None);
            && Good(c, s) && TailSize(Tlvs(s)) <= 1500
            && Tlvs(s) == (if sar.Some? then SarTlvs(sar.value) else [])
                          + PayloadTlvs(if |text| <= MAX_SHORT then None else Some(text))
            && forall i | 0 <= i < TLV :: s[i] == whole[i]
  {
    WholeGood(c, seqNo, from, to, coding, text);
    var whole := Segment(c, seqNo, from, to, coding, text, None);
    if sar.Some? {
      SarGood(c, whole, sar.value);
    } else {
      AppendNothing(Tlvs(whole));
    }
    TailOfFive(if sar.Some? then SarTlvs(sar.value) else [], text);
  }

  lemma TailOfFive(records: seq<Record>, text: seq<byte>)
    requires records == [] || exists sar :: records == SarTlvs(sar)
    ensures TailSize(records + PayloadTlvs(if |text| <= MAX_SHORT then None else Some(text))) <= 1500
  {
    var p: seq<Record> := PayloadTlvs(if |text| <= MAX_SHORT then None else Some(text));
    if |text| > MAX_SHORT { assert p[1..] == []; }
    assert TailSize(p) <= 1028;
    if records == [] {
      assert records + p == p;
    } else {
      var l := records + p;
      assert l[1..] == records[1..] + p && l[2..] == records[2..] + p && l[3..] == records[3..] + p && l[4..] == p;
      assert TailSize(l[3..]) <= 8 + TailSize(p);
      assert TailSize(l[2..]) <= 16 + TailSize(p);
      assert TailSize(l[1..]) <= 24 + TailSize(p);
    }
  }

  predicate HasTag(rec: Record, tag: nat) {
    |rec| == 3 && rec[0] == Num(tag)
  }

  /** Looking up tags in what arrives of the list: the place of a segment, and the payload behind it. */
  lemma FiveLooked(sar: Sar, p: seq<Record>, tag: nat)
    ensures var r, l := SarTlvs(sar), LastTlv(Reverse(SarTlvs(sar) + p), tag);
            l == if HasTag(r[0], tag) then Some(r[0][2]) else if HasTag(r[1], tag) then Some(r[1][2])
                 else if HasTag(r[2], tag) then Some(r[2][2]) else if HasTag(r[3], tag) then Some(r[3][2])
                 else LastTlv(Reverse(p), tag)
  {
    var r := SarTlvs(sar);
    var l := r + p;
    assert l[1..] == r[1..] + p && l[1..][1..] == r[2..] + p && (r[2..] + p)[1..] == r[3..] + p && (r[3..] + p)[1..] == p;
    LastIsFirst(l, tag);
    LastIsFirst(l[1..], tag);
    LastIsFirst(r[2..] + p, tag);
    LastIsFirst(r[3..] + p, tag);
  }

  lemma PayloadLooked(text: seq<byte>, tag: nat)
    ensures LastTlv(Reverse([PayloadTlv(text)]), tag)
            == if tag == TLVID_message_payload then Some(Octets(KeptText(text))) else None
  {
    var l := [PayloadTlv(text)];
    assert l[1..] == [];
    LastIsFirst(l, tag);
  }

  /**
   * The text, up to 1024 octets of it, and the place of a segment arrive as they were given, and of each address what
   * fits its field, unless the text has 254 octets: then nothing does.
   */
  lemma SegmentArrives(c: MessageId, seqNo: nat, from: seq<byte>, to: seq<byte>, coding: nat, text: seq<byte>,
                       sar: Option<Sar>)
    requires 1 <= seqNo < 0x1_0000_0000 && (sar.Some? ==> c == SUBMIT_SM)
    ensures Good(c, Segment(c, seqNo, from, to, coding, text, sar))
    ensures var arrived := Received(c, Segment(c, seqNo, from, to, coding, text, sar));
            && (arrived.Some? <==> |text| != MAX_SHORT)
            && (arrived.Some? ==>
                  var r := arrived.value;
                  && GetText(r) == KeptText(text)
                  && GetString(r, SOURCE_ADDR) == Printed(from, 21) && GetString(r, DESTINATION_ADDR) == Printed(to, 21)
                  && GetSar(r) == Place(sar))
  {
    var s := Segment(c, seqNo, from, to, coding, text, sar);
    SegmentGood(c, seqNo, from, to, coding, text, sar);
    WholeGood(c, seqNo, from, to, coding, text);
    SizeBelow(c, s);
    ReceivedIsSent(c, s);
    if |text| != MAX_SHORT {
      ArrivedFields(c, s, Received(c, s).value, from, to);
      var payload := if |text| <= MAX_SHORT then None else Some(text);
      TagLooked(sar, payload, TLVID_message_payload);
      TagLooked(sar, payload, TLVID_sar_total_segments);
      TagLooked(sar, payload, TLVID_sar_msg_ref_num);
      TagLooked(sar, payload, TLVID_sar_segment_seqnum);
      TagLooked(sar, payload, TLVID_more_messages_to_send);
    }
  }

  /** What arrives of such a message. */
  ghost function ReceivedSegment(c: MessageId, seqNo: nat, from: seq<byte>, to: seq<byte>, coding: nat, text: seq<byte>,
                                 sar: Option<Sar>): Option<Struct>
    requires 1 <= seqNo < 0x1_0000_0000 && (sar.Some? ==> c == SUBMIT_SM)
  {
    SegmentGood(c, seqNo, from, to, coding, text, sar);
    Received(c, Segment(c, seqNo, from, to, coding, text, sar))
  }

  lemma ArrivedFields(c: MessageId, s: Struct, r: Struct, from: seq<byte>, to: seq<byte>)
    requires Good(c, s) && |r| == 23 && forall i | 0 < i < TLV :: r[i] == CutSlot(FrameOf(c)[i], s[i])
    requires s[SOURCE_ADDR] == Leaf(Octets(Printed(from, 21))) && s[DESTINATION_ADDR] == Leaf(Octets(Copied(to)))
    ensures GetString(r, SOURCE_ADDR) == Printed(from, 21) && GetString(r, DESTINATION_ADDR) == Printed(to, 21)
    ensures r[SM_LENGTH] == s[SM_LENGTH] && r[SHORT_MESSAGE] == s[SHORT_MESSAGE]
  {
    AddressFields(c);
    TextFields(c);
    CopiedIsPrinted(to);
    assert Kept(Printed(from, 21), 21) == Printed(from, 21);
  }

  /** What the four records of a segment hold. */
  function Place(sar: Option<Sar>): (Option<Value>, Option<Value>, Option<Value>, Option<Value>) {
    match sar
    case None => (None, None, None, None)
    case Some(Sar(total, ref, k)) =>
      (Some(Num(total % 256)), Some(Num(ref % 0x1_0000)), Some(Num(k % 256)), Some(Num(if total > k then 1 else 0)))
  }

  lemma PayloadOnly(text: Option<seq<byte>>, tag: nat)
    ensures LastTlv(Reverse(PayloadTlvs(text)), tag)
            == if tag == TLVID_message_payload && text.Some? then Some(Octets(KeptText(text.value))) else None
  {
    if text.Some? { PayloadLooked(text.value, tag); }
  }

  function PayloadTlvs(text: Option<seq<byte>>): seq<Record> {
    if text.Some? then [PayloadTlv(text.value)] else []
  }

  lemma TagLooked(sar: Option<Sar>, text: Option<seq<byte>>, tag: nat)
    ensures LastTlv(Reverse((if sar.Some? then SarTlvs(sar.value) else []) + PayloadTlvs(text)), tag)
            == if tag == TLVID_message_payload then (if text.Some? then Some(Octets(KeptText(text.value))) else None)
               else if tag == TLVID_sar_total_segments then Place(sar).0
               else if tag == TLVID_sar_msg_ref_num then Place(sar).1
               else if tag == TLVID_sar_segment_seqnum then Place(sar).2
               else if tag == TLVID_more_messages_to_send then Place(sar).3
               else None
  {
    var p := PayloadTlvs(text);
    PayloadOnly(text, tag);
    if sar.Some? {
      FiveLooked(sar.value, p, tag);
    } else {
      assert [] + p == p;
    }
  }

  // Sending and awaiting

  /** The octets are the packed command, and the other end unpacks from them what arrives of it. */
  ghost predicate OnWire(c: MessageId, s: Struct, wire: seq<byte>, arrived: Option<Struct>)
    requires Good(c, s)
  {
    && CommandTyped(c, s) && Packed(c, s, SendPdu.LAST_SIZE) == Some(wire)
    && arrived.Some? && arrived == Received(c, s) == Unpacked(c, wire)
  }

  /** SendPDU, and what the other end unpacks from the octets. */
  method Transmit(c: MessageId, s: Struct) returns (res: SendPdu.Result, wire: seq<byte>, arrived: Option<Struct>)
    requires Good(c, s)
    ensures res == SendPdu.ResultOk ==> OnWire(c, s, wire, arrived)
  {
    GoodTyped(c, s);
    var isOpen: bool, writeThrows: bool := *, *;
    var attempts;
    res, wire, attempts := SendPdu.Send(c, s, isOpen, writeThrows);
    arrived := None;
    if res == SendPdu.ResultOk {
      ReceivedFrom(c, s, Some(wire));
      var ret, t := SmppUnpack(c, wire);
      arrived := Some(t);
    }
  }

  /** SendRequest: the socket, the peer and the clock decide what happens once the command is packed. */
  method SendRequest(c: MessageId, s: Struct) returns (res: SendPdu.Result, status: int, arrived: Option<Struct>)
    requires Good(c, s)
    ensures res == SendPdu.ResultOk ==> arrived.Some? && arrived == Received(c, s)
  {
    var answer: SendPdu.Result := *;
    status := *;
    var wire;
    res, wire, arrived := Transmit(c, s);
    if res == SendPdu.ResultOk { res := answer; }
  }
}
