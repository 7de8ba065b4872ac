/** The submit_sm and deliver_sm of a text, or of one of its segments, on the wire. */
module MessageOctets {
  import opened Sequences
  import opened Bytes
  import opened Params
  import opened Frames
  import opened Tokens
  import opened Pack
  import opened Submit
  import SendPdu
  import L = Layouts

  /** The TLVs in their order: the place of the segment, and the text when it is no short message. */
  function TlvsSent(text: seq<byte>, sar: Option<Sar>): seq<L.Tlv> {
    var payload := if |text| <= 254 then [] else [L.Tlv(0x0424, |KeptText(text)|, Octets(KeptText(text)))];
    match sar
    case None => payload
    case Some(Sar(total, ref, k)) =>
      [L.Tlv(0x0426, 1, Num(if total > k then 1 else 0)), L.Tlv(0x020F, 1, Num(k % 256)),
       L.Tlv(0x020C, 2, Num(ref % 0x1_0000)), L.Tlv(0x020E, 1, Num(total % 256))] + payload
  }

  /** All other fields are zero. */
  function ContentSent(coding: nat, text: seq<byte>): L.Content {
    L.Content(0, 0, 0, [], [], 0, 0, coding % 256, 0, if |text| <= 254 then text else [])
  }

  /** The message as it stands in the table of PDUs. */
  function Sent(c: MessageId, from: seq<byte>, to: seq<byte>, coding: nat, text: seq<byte>, sar: Option<Sar>): L.Message {
    var source, dest := L.Party(0, 0, Printed(from, 21)), L.Party(0, 0, Copied(to));
    if c == 0x04 then L.SubmitSm([], source, dest, ContentSent(coding, text), TlvsSent(text, sar))
    else L.DeliverSm([], source, dest, ContentSent(coding, text), TlvsSent(text, sar))
  }

  function RecordsOf(ts: seq<L.Tlv>): seq<Record> {
    seq(|ts|, i requires 0 <= i < |ts| => [Num(ts[i].tag), Num(ts[i].length), ts[i].value])
  }

  lemma RecordsSent(c: MessageId, text: seq<byte>, sar: Option<Sar>)
    ensures RecordsOf(TlvsSent(text, sar))
            == (if sar.Some? then SarTlvs(sar.value) else [])
               + PayloadTlvs(if |text| <= MAX_SHORT then None else Some(text))
    ensures L.Records(L.TlvEntries(c, TlvsSent(text, sar))) == RecordsOf(TlvsSent(text, sar))
  {
  }

  lemma TlvsFit(c: MessageId, text: seq<byte>, sar: Option<Sar>)
    requires sar.Some? ==> c == 0x04
    ensures forall t | t in TlvsSent(text, sar) :: L.TlvEntry(c, t).fits && L.TlvEntry(c, t).valid
  {
  }

  function N(n: nat): Slot {
    Leaf(Num(n))
  }

  function O(b: seq<byte>): Slot {
    Leaf(Octets(b))
  }

  /** The structure of such a message. */
  function Filled(c: MessageId, seqNo: nat, from: seq<byte>, to: seq<byte>, coding: nat, text: seq<byte>,
                  records: seq<Record>): Struct
  {
    var short := if |text| <= 254 then text else [];
    [N(0), N(c), N(0), N(seqNo), O([]), N(0), N(0), O(Printed(from, 21)), N(0), N(0), O(Copied(to)),
     N(0), N(0), N(0), O([]), O([]), N(0), N(0), N(coding % 256), N(0), N(|short|), O(short), List(records)]
  }

  lemma AddressesFilled(c: MessageId, seqNo: nat, from: seq<byte>, to: seq<byte>)
    ensures WithSource(WithDestination(Fresh(c, seqNo), to, 0, 0), from, 0, 0) == Filled(c, seqNo, from, to, 0, [], [])
  {
  }

  lemma TextFilled(c: MessageId, seqNo: nat, from: seq<byte>, to: seq<byte>, text: seq<byte>)
    ensures WithText(Filled(c, seqNo, from, to, 0, [], []), text)
            == Filled(c, seqNo, from, to, 0, text, PayloadTlvs(if |text| <= MAX_SHORT then None else Some(text)))
  {
    var s := Filled(c, seqNo, from, to, 0, [], []);
    if |text| > MAX_SHORT {
      assert s[SM_LENGTH := N(0)][SHORT_MESSAGE := O([])] == s;
      assert [PayloadTlv(text)] + [] == [PayloadTlv(text)];
    }
  }

  lemma WholeFilled(c: MessageId, seqNo: nat, from: seq<byte>, to: seq<byte>, coding: nat, text: seq<byte>)
    ensures Segment(c, seqNo, from, to, coding, text, None)
            == Filled(c, seqNo, from, to, coding, text, PayloadTlvs(if |text| <= MAX_SHORT then None else Some(text)))
  {
    AddressesFilled(c, seqNo, from, to);
    TextFilled(c, seqNo, from, to, text);
  }

  lemma SegmentFilled(c: MessageId, seqNo: nat, from: seq<byte>, to: seq<byte>, coding: nat, text: seq<byte>,
                      sar: Option<Sar>)
    requires 1 <= seqNo < 0x1_0000_0000 && (sar.Some? ==> c == SUBMIT_SM)
    ensures Segment(c, seqNo, from, to, coding, text, sar)
            == Filled(c, seqNo, from, to, coding, text, RecordsOf(TlvsSent(text, sar)))
  {
    var s, whole := Segment(c, seqNo, from, to, coding, text, sar), Segment(c, seqNo, from, to, coding, text, None);
    WholeFilled(c, seqNo, from, to, coding, text);
    SegmentGood(c, seqNo, from, to, coding, text, sar);
    RecordsSent(c, text, sar);
    assert s[TLV] == List(Tlvs(s));
    SameSlots(s, whole, Filled(c, seqNo, from, to, coding, text, RecordsOf(TlvsSent(text, sar))));
  }

  lemma SameSlots(s: Struct, whole: Struct, t: Struct)
    requires |s| == |whole| == |t| == 23 && s[22] == t[22]
    requires forall i | 0 <= i < 22 :: s[i] == whole[i]
    requires whole[..22] == t[..22]
    ensures s == t
  {
    forall i | 0 <= i < 23 ensures s[i] == t[i] {
      if i < 22 { assert whole[..22][i] == t[..22][i]; }
    }
  }

  lemma MessageSlots(service: seq<byte>, source: L.Party, dest: L.Party, c: L.Content, timeSize: pos, es: seq<L.Entry>)
    ensures L.Slots([L.Text("service_type", service, 6)] + L.SourceRows(source, 21) + L.DestinationRows(dest, 21)
                    + L.ContentRows(c, timeSize, es))
            == [O(service), N(source.ton), N(source.npi), O(source.addr), N(dest.ton), N(dest.npi), O(dest.addr),
                N(c.esm), N(c.protocol), N(c.priority), O(c.schedule), O(c.validity), N(c.registered), N(c.replace),
                N(c.coding), N(c.defaultId), N(|c.text|), O(c.text), List(L.Records(es))]
  {
  }

  lemma HeaderSlots(id: nat, seqNo: nat, rows: seq<L.Row>)
    ensures L.Slots(L.Header(id, 0, 0, seqNo) + rows) == [N(0), N(id), N(0), N(seqNo)] + L.Slots(rows)
  {
  }

  lemma SentRows(c: MessageId, from: seq<byte>, to: seq<byte>, coding: nat, text: seq<byte>, sar: Option<Sar>)
    ensures var m := Sent(c, from, to, coding, text, sar);
            && L.Named(m) && L.Id(m) == c
            && L.Rows(m) == [L.Text("service_type", [], 6)] + L.SourceRows(L.Party(0, 0, Printed(from, 21)), 21)
                            + L.DestinationRows(L.Party(0, 0, Copied(to)), 21)
                            + L.ContentRows(ContentSent(coding, text), if c == 0x04 then 17 else 1,
                                            L.TlvEntries(c, TlvsSent(text, sar)))
  {
  }

  lemma FilledInTwo(c: MessageId, seqNo: nat, from: seq<byte>, to: seq<byte>, coding: nat, text: seq<byte>,
                    records: seq<Record>)
    ensures var k := ContentSent(coding, text);
            Filled(c, seqNo, from, to, coding, text, records)
            == [N(0), N(c), N(0), N(seqNo)]
               + [O([]), N(0), N(0), O(Printed(from, 21)), N(0), N(0), O(Copied(to)),
                  N(k.esm), N(k.protocol), N(k.priority), O(k.schedule), O(k.validity), N(k.registered), N(k.replace),
                  N(k.coding), N(k.defaultId), N(|k.text|), O(k.text), List(records)]
  {
  }

  lemma SentSlots(c: MessageId, seqNo: nat, from: seq<byte>, to: seq<byte>, coding: nat, text: seq<byte>, sar: Option<Sar>)
    ensures L.Named(Sent(c, from, to, coding, text, sar))
    ensures L.Slots(L.Whole(Sent(c, from, to, coding, text, sar), 0, 0, seqNo))
            == Filled(c, seqNo, from, to, coding, text, RecordsOf(TlvsSent(text, sar)))
  {
    var m := Sent(c, from, to, coding, text, sar);
    SentRows(c, from, to, coding, text, sar);
    SlotsOf(c, seqNo, from, to, coding, text, L.TlvEntries(c, TlvsSent(text, sar)), L.Rows(m));
    RecordsSent(c, text, sar);
  }

  lemma SlotsOf(c: MessageId, seqNo: nat, from: seq<byte>, to: seq<byte>, coding: nat, text: seq<byte>,
                es: seq<L.Entry>, rows: seq<L.Row>)
    requires rows == [L.Text("service_type", [], 6)] + L.SourceRows(L.Party(0, 0, Printed(from, 21)), 21)
                     + L.DestinationRows(L.Party(0, 0, Copied(to)), 21)
                     + L.ContentRows(ContentSent(coding, text), if c == 0x04 then 17 else 1, es)
    ensures L.Slots(L.Header(c, 0, 0, seqNo) + rows) == Filled(c, seqNo, from, to, coding, text, L.Records(es))
  {
    MessageSlots([], L.Party(0, 0, Printed(from, 21)), L.Party(0, 0, Copied(to)), ContentSent(coding, text),
                 if c == 0x04 then 17 else 1, es);
    HeaderSlots(c, seqNo, rows);
    FilledInTwo(c, seqNo, from, to, coding, text, L.Records(es));
  }

  lemma {:induction false} WrittenInTwo(a: seq<L.Row>, b: seq<L.Row>)
    ensures L.Written(a + b) <==> L.Written(a) && L.Written(b)
  {
    if a == [] {
      AppendNothing(b);
    } else {
      AppendedRest(a, b);
      WrittenInTwo(a[1..], b);
    }
  }

  lemma {:induction false} AllValid(es: seq<L.Entry>)
    requires forall e | e in es :: e.valid
    ensures L.AllValid(es)
  {
    if es != [] {
      assert es[0] in es && forall e | e in es[1..] :: e in es;
      AllValid(es[1..]);
    }
  }

  lemma AddressesSent(from: seq<byte>, to: seq<byte>)
    ensures var rows := [L.Text("service_type", [], 6)] + L.SourceRows(L.Party(0, 0, Printed(from, 21)), 21)
                        + L.DestinationRows(L.Party(0, 0, Copied(to)), 21);
            L.Stored(rows) && L.Written(rows)
  {
    var a, b := L.SourceRows(L.Party(0, 0, Printed(from, 21)), 21), L.DestinationRows(L.Party(0, 0, Copied(to)), 21);
    var first := [L.Text("service_type", [], 6)];
    AddressSent("source_addr_ton", "source_addr_npi", "source_addr", Printed(from, 21));
    AddressSent("dest_addr_ton", "dest_addr_npi", "destination_addr", Copied(to));
    L.StoredInThree(first, a, b);
    WrittenInTwo(first + a, b);
    WrittenInTwo(first, a);
  }

  lemma AddressSent(ton: string, npi: string, addr: string, v: seq<byte>)
    requires L.StringFits(v, 21)
    ensures var rows := L.Address(ton, npi, addr, L.Party(0, 0, v), 21); L.Stored(rows) && L.Written(rows)
  {
    var rows := L.Address(ton, npi, addr, L.Party(0, 0, v), 21);
    assert rows == [rows[0]] + ([rows[1]] + ([rows[2]] + []));
    L.JoinCons(rows[2], []);
    L.JoinCons(rows[1], [rows[2]] + []);
    L.JoinCons(rows[0], [rows[1]] + ([rows[2]] + []));
  }

  lemma FirstSent(coding: nat, text: seq<byte>, timeSize: pos)
    ensures var rows := L.FirstContent(ContentSent(coding, text), timeSize); L.Stored(rows) && L.Written(rows)
    ensures var rows := L.SecondContent(ContentSent(coding, text)); L.Stored(rows) && L.Written(rows)
  {
    var c := ContentSent(coding, text);
    AllWritten(L.FirstContent(c, timeSize));
    AllWritten(L.SecondContent(c));
  }

  lemma {:induction false} AllWritten(rows: seq<L.Row>)
    requires forall row | row in rows :: row.written
    ensures L.Written(rows)
  {
    if rows != [] {
      assert rows[0] in rows && forall row | row in rows[1..] :: row in rows;
      AllWritten(rows[1..]);
    }
  }

  lemma TextSent(text: seq<byte>)
    requires |text| <= 254
    ensures L.Stored(L.ShortMessage(text)) && (L.Written(L.ShortMessage(text)) <==> |text| != 254)
  {
    var rows := L.ShortMessage(text);
    assert rows == [rows[0]] + ([rows[1]] + []);
    L.JoinCons(rows[1], []);
    L.JoinCons(rows[0], [rows[1]] + []);
  }

  lemma TlvRowSent(c: MessageId, text: seq<byte>, sar: Option<Sar>)
    requires sar.Some? ==> c == 0x04
    ensures var rows := [L.Listed("tlv", L.TlvEntries(c, TlvsSent(text, sar)))]; L.Stored(rows) && L.Written(rows)
  {
    var es := L.TlvEntries(c, TlvsSent(text, sar));
    TlvsFit(c, text, sar);
    AllValid(es);
    var row := L.Listed("tlv", es);
    assert [row] == [row] + [];
    L.JoinCons(row, []);
  }

  lemma SentIsStored(c: MessageId, from: seq<byte>, to: seq<byte>, coding: nat, text: seq<byte>, sar: Option<Sar>)
    requires sar.Some? ==> c == 0x04
    ensures var rows := L.Rows(Sent(c, from, to, coding, text, sar));
            L.Stored(rows) && (L.Written(rows) <==> |text| != 254)
  {
    var timeSize, content := if c == 0x04 then 17 else 1, ContentSent(coding, text);
    var head := [L.Text("service_type", [], 6)] + L.SourceRows(L.Party(0, 0, Printed(from, 21)), 21)
                + L.DestinationRows(L.Party(0, 0, Copied(to)), 21);
    var a, b, short := L.FirstContent(content, timeSize), L.SecondContent(content), L.ShortMessage(content.text);
    var tail := [L.Listed("tlv", L.TlvEntries(c, TlvsSent(text, sar)))];
    SentRows(c, from, to, coding, text, sar);
    AddressesSent(from, to);
    FirstSent(coding, text, timeSize);
    TextSent(content.text);
    TlvRowSent(c, text, sar);
    L.StoredInThree(a + b, short, tail);
    L.StoredInTwo(a, b);
    L.StoredInTwo(head, a + b + short + tail);
    WrittenInTwo(a + b + short, tail);
    WrittenInTwo(a + b, short);
    WrittenInTwo(a, b);
    WrittenInTwo(head, a + b + short + tail);
  }

  lemma SegmentPacks(c: MessageId, seqNo: nat, from: seq<byte>, to: seq<byte>, coding: nat, text: seq<byte>,
                     sar: Option<Sar>)
    requires 1 <= seqNo < 0x1_0000_0000 && (sar.Some? ==> c == SUBMIT_SM)
    ensures var s := Segment(c, seqNo, from, to, coding, text, sar);
            CommandTyped(c, s) && (Packed(c, s, SendPdu.LAST_SIZE).Some? <==> |text| != 254)
  {
    var s := Segment(c, seqNo, from, to, coding, text, sar);
    SegmentGood(c, seqNo, from, to, coding, text, sar);
    SegmentFilled(c, seqNo, from, to, coding, text, sar);
    SizeBelow(c, s);
    PackableExactly(c, s);
  }

  /**
   * What goes out for a text or a segment of one: exactly these octets, of which the table of PDUs says where each field
   * stands; nothing when the text has 254 octets.
   */
  lemma SegmentOctets(c: MessageId, seqNo: nat, from: seq<byte>, to: seq<byte>, coding: nat, text: seq<byte>,
                      sar: Option<Sar>)
    requires 1 <= seqNo < 0x1_0000_0000 && (sar.Some? ==> c == SUBMIT_SM)
    ensures L.Named(Sent(c, from, to, coding, text, sar))
    ensures var s := Segment(c, seqNo, from, to, coding, text, sar);
            var o := L.Pdu(Sent(c, from, to, coding, text, sar), 0, seqNo);
            && CommandTyped(c, s)
            && Packed(c, s, SendPdu.LAST_SIZE) == (if |text| == 254 then None else Some(o))
  {
    SentRows(c, from, to, coding, text, sar);
    SentIsStored(c, from, to, coding, text, sar);
    SentSlots(c, seqNo, from, to, coding, text, sar);
    SegmentFilled(c, seqNo, from, to, coding, text, sar);
    SegmentPacks(c, seqNo, from, to, coding, text, sar);
    WrittenOctets(c, seqNo, Sent(c, from, to, coding, text, sar), Segment(c, seqNo, from, to, coding, text, sar));
  }

  lemma WrittenOctets(c: MessageId, seqNo: nat, m: L.Message, s: Struct)
    requires L.Named(m) && L.Id(m) == c && L.Stored(L.Rows(m)) && s == L.Slots(L.Whole(m, 0, 0, seqNo))
    requires 1 <= seqNo < 0x1_0000_0000 && CommandTyped(c, s)
    requires Packed(c, s, SendPdu.LAST_SIZE).Some? ==> L.Written(L.Rows(m))
    ensures Packed(c, s, SendPdu.LAST_SIZE).Some? ==> Packed(c, s, SendPdu.LAST_SIZE) == Some(L.Pdu(m, 0, seqNo))
  {
    var room := |L.Pdu(m, 0, seqNo)| + SendPdu.LAST_SIZE;
    L.PackedAsLaidOut(m, 0, 0, seqNo, room);
    if Packed(c, s, SendPdu.LAST_SIZE).Some? {
      SendPdu.LargerIsEqual(c, s, SendPdu.LAST_SIZE, room);
    }
  }

  /**
   * What is sent of an address: up to its first NUL, at most 20 octets of a source and 21 of a destination, of which 20
   * arrive; and of a text at most 1024 octets.
   */
  lemma WhatIsKept(addr: seq<byte>, text: seq<byte>)
    ensures var kept := Printed(addr, 21);
            && kept <= addr && 0 !in kept && |kept| <= 20 && (|kept| == 20 || kept == addr || addr[|kept|] == 0)
    ensures var kept := Copied(addr);
            && kept <= addr && 0 !in kept && |kept| <= 21 && (|kept| == 21 || kept == addr || addr[|kept|] == 0)
    ensures KeptText(text) == if |text| <= 1024 then text else text[..1024]
  {
  }
}
