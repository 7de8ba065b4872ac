/**
 * The PDUs as they stand on the wire (section 4 of SMPP v3.4): for every command its fields in order, under their
 * names, with their octets and limits in numbers. smpp34_pack and smpp34_unpack meet this table.
 */
module Layouts {
  import opened Sequences
  import opened Bytes
  import opened Params
  import opened Frames
  import opened Tokens
  import opened Pack
  import opened Unpack
  import opened RoundTrip
  import opened Reading

  /**
   * A field of a C structure: what it holds and whether its C type can hold that, the octets that it stands for, whether
   * smpp34_pack writes and smpp34_unpack takes them, and what they are read as.
   */
  datatype Row = Row(name: string, slot: Slot, fits: bool, octets: seq<byte>, written: bool, taken: bool, arrives: Slot)

  // Kinds of fields

  function OneOctet(name: string, n: nat, valid: bool): Row {
    Row(name, Leaf(Num(n)), n < 256, [n % 256], valid, valid, Leaf(Num(n)))
  }

  function TwoOctets(n: nat): seq<byte> {
    [n / 256 % 256, n % 256]
  }

  function FourOctets(n: nat): seq<byte> {
    TwoOctets(n / 0x1_0000) + TwoOctets(n)
  }

  function Word(name: string, n: nat, valid: bool): Row {
    Row(name, Leaf(Num(n)), n < 0x1_0000_0000, FourOctets(n), valid, valid, Leaf(Num(n)))
  }

  /** A string loses its last octet when it leaves no room for the NUL. */
  function Shortened(v: seq<byte>, size: pos): seq<byte> {
    if |v| == size then v[..size - 1] else v
  }

  function Text(name: string, v: seq<byte>, size: pos): Row {
    var kept := Shortened(v, size);
    Row(name, Leaf(Octets(v)), 0 !in v && |v| <= size, kept + [0], true, true, Leaf(Octets(kept)))
  }

  /** A short message and the octet with its length: 253 octets are written, 254 are read. */
  function ShortMessage(text: seq<byte>): seq<Row> {
    [OneOctet("sm_length", |text|, true),
     Row("short_message", Leaf(Octets(text)), true, text, |text| < 254, |text| <= 254, Leaf(Octets(text)))]
  }

  predicate NpiListed(n: nat) {
    n in {0, 1, 3, 4, 6, 8, 9, 10, 14, 18}
  }

  datatype Party = Party(ton: nat, npi: nat, addr: seq<byte>)

  function Address(ton: string, npi: string, addr: string, p: Party, size: pos): seq<Row> {
    [OneOctet(ton, p.ton, p.ton <= 6), OneOctet(npi, p.npi, NpiListed(p.npi)), Text(addr, p.addr, size)]
  }

  // Records

  /** A record: its values, whether their C types can hold them, its octets, its validity, and what it is read as. */
  datatype Entry = Entry(record: Record, fits: bool, octets: seq<byte>, valid: bool, arrives: Record)

  function JoinEntries(es: seq<Entry>): seq<byte> {
    if es == [] then [] else es[0].octets + JoinEntries(es[1..])
  }

  predicate AllValid(es: seq<Entry>) {
    es == [] || (es[0].valid && AllValid(es[1..]))
  }

  function Records(es: seq<Entry>): seq<Record> {
    seq(|es|, i requires 0 <= i < |es| => es[i].record)
  }

  function Arrivals(es: seq<Entry>): seq<Record> {
    seq(|es|, i requires 0 <= i < |es| => es[i].arrives)
  }

  /** A list of records: it is read in the opposite order. */
  function Listed(name: string, es: seq<Entry>): Row {
    Row(name, List(Records(es)), forall e | e in es :: e.fits, JoinEntries(es), AllValid(es), AllValid(es),
        List(Reverse(Arrivals(es))))
  }

  datatype Tlv = Tlv(tag: nat, length: nat, value: Value)

  /** The commands whose TLVs have widths of their own: submit_sm, submit_multi, data_sm and deliver_sm. */
  predicate Sends(command: int) {
    command in {0x04, 0x21, 0x103}
  }

  predicate Reports(command: int) {
    command in {0x05, 0x103}
  }

  /** How many octets the number in a TLV takes; 0 when its value is a run of octets. */
  function TlvWidth(command: int, tag: nat): nat {
    match tag
    case 0x0005 => if Sends(command) then 1 else 0
    case 0x0006 => if command == 0x103 then 1 else 0
    case 0x0007 => if command == 0x103 then 1 else 0
    case 0x0008 => if command == 0x103 then 2 else 0
    case 0x000D => if Sends(command) then 1 else 0
    case 0x000E => if Reports(command) then 1 else 0
    case 0x000F => if command == 0x103 then 1 else 0
    case 0x0010 => if command == 0x103 then 1 else 0
    case 0x0017 => if command == 0x103 then 4 else 0
    case 0x0019 => if Sends(command) || Reports(command) then 1 else 0
    case 0x0030 => if Sends(command) then 1 else 0
    case 0x0201 => if Sends(command) || Reports(command) then 1 else 0
    case 0x0204 => if Sends(command) || Reports(command) then 2 else 0
    case 0x0205 => if Sends(command) || Reports(command) then 1 else 0
    case 0x020A => if Sends(command) || Reports(command) then 2 else 0
    case 0x020B => if Sends(command) || Reports(command) then 2 else 0
    case 0x020C => if Sends(command) || Reports(command) then 2 else 0
    case 0x020D => if Sends(command) || Reports(command) then 1 else 0
    case 0x020E => if Sends(command) || Reports(command) then 1 else 0
    case 0x020F => if Sends(command) || Reports(command) then 1 else 0
    case 0x0210 => if command in {0x8000_0001, 0x8000_0002, 0x8000_0009} then 1 else 0
    case 0x0302 => if Sends(command) then 1 else 0
    case 0x0304 => if Sends(command) then 1 else 0
    case 0x0421 => if Reports(command) then 1 else 0
    case 0x0422 => if command == 0x102 then 1 else 0
    case 0x0426 => if Sends(command) then 1 else 0
    case 0x0427 => if Reports(command) then 1 else 0
    case 0x1201 => if Sends(command) then 1 else 0
    case 0x1203 => if Sends(command) then 2 else 0
    case 0x1204 => if Sends(command) then 1 else 0
    case 0x1380 => if Sends(command) then 1 else 0
    case 0x1383 => if Sends(command) || Reports(command) then 2 else 0
    case _ => 0
  }

  /** The most octets that such a run may have. */
  function TlvLimit(command: int, tag: nat): nat {
    match tag
    case 0x001E => if Reports(command) then 65 else 1024
    case 0x0202 => if Sends(command) || Reports(command) then 23 else 1024
    case 0x0203 => if Sends(command) || Reports(command) then 23 else 1024
    case 0x0303 => if Sends(command) then 65 else 1024
    case 0x0381 => if Sends(command) || Reports(command) then 19 else 1024
    case 0x0423 => if Reports(command) then 3 else 1024
    case 0x0501 => if command in {0x04, 0x21} then 1 else 1024
    case 0x130C => if Sends(command) then 0 else 1024
    case _ => 1024
  }

  function TlvOctets(width: nat, v: Value): seq<byte> {
    match v
    case Octets(b) => b
    case Num(n) => if width == 1 then [n % 256] else if width == 2 then TwoOctets(n) else FourOctets(n)
  }

  /** The length of a TLV with a number is not looked at. */
  function TlvEntry(command: int, t: Tlv): Entry {
    var rec := [Num(t.tag), Num(t.length), t.value];
    var width := TlvWidth(command, t.tag);
    Entry(rec,
          t.tag < 0x1_0000 && t.length < 0x1_0000
          && (if width == 0 then t.value.Octets? && |t.value.b| == t.length
              else t.value.Num? && t.value.n < if width == 1 then 256 else if width == 2 then 0x1_0000 else 0x1_0000_0000),
          TwoOctets(t.tag) + TwoOctets(t.length) + TlvOctets(width, t.value),
          width > 0 || t.length <= TlvLimit(command, t.tag),
          rec)
  }

  function TlvEntries(command: int, ts: seq<Tlv>): seq<Entry> {
    seq(|ts|, i requires 0 <= i < |ts| => TlvEntry(command, ts[i]))
  }

  /** A destination of submit_multi: an address, the name of a list, or neither, which is refused. */
  datatype Dest = Sme(p: Party) | ListName(name: seq<byte>) | Neither(flag: nat)

  predicate StringFits(v: seq<byte>, size: pos) {
    0 !in v && |v| <= size
  }

  function DestEntry(d: Dest): Entry {
    match d
    case Sme(p) =>
      Entry([Num(1), Num(p.ton), Num(p.npi), Octets(p.addr)],
            p.ton < 256 && p.npi < 256 && StringFits(p.addr, 21),
            [1, p.ton % 256, p.npi % 256] + Shortened(p.addr, 21) + [0],
            p.ton <= 6 && NpiListed(p.npi),
            [Num(1), Num(p.ton), Num(p.npi), Octets(Shortened(p.addr, 21))])
    case ListName(name) =>
      Entry([Num(2), Octets(name)], StringFits(name, 21), [2] + Shortened(name, 21) + [0], true,
            [Num(2), Octets(Shortened(name, 21))])
    case Neither(flag) =>
      Entry([Num(flag)], flag < 256 && flag != 1 && flag != 2, [flag % 256], false, [Num(flag)])
  }

  function DestEntries(ds: seq<Dest>): seq<Entry> {
    seq(|ds|, i requires 0 <= i < |ds| => DestEntry(ds[i]))
  }

  /** A destination that submit_multi could not reach. */
  datatype Failure = Failure(p: Party, error: nat)

  function FailureEntry(f: Failure): Entry {
    Entry([Num(f.p.ton), Num(f.p.npi), Octets(f.p.addr), Num(f.error)],
          f.p.ton < 256 && f.p.npi < 256 && StringFits(f.p.addr, 21) && f.error < 0x1_0000_0000,
          [f.p.ton % 256, f.p.npi % 256] + Shortened(f.p.addr, 21) + [0] + FourOctets(f.error),
          f.p.ton <= 6 && NpiListed(f.p.npi),
          [Num(f.p.ton), Num(f.p.npi), Octets(Shortened(f.p.addr, 21)), Num(f.error)])
  }

  function FailureEntries(fs: seq<Failure>): seq<Entry> {
    seq(|fs|, i requires 0 <= i < |fs| => FailureEntry(fs[i]))
  }

  // The commands

  /** The fields that submit_sm, deliver_sm and submit_multi have behind their addresses. */
  datatype Content = Content(esm: nat, protocol: nat, priority: nat, schedule: seq<byte>, validity: seq<byte>,
                             registered: nat, replace: nat, coding: nat, defaultId: nat, text: seq<byte>)

  datatype Message =
    | Bind(command: int, systemId: seq<byte>, password: seq<byte>, systemType: seq<byte>, version: nat, range: Party)
    | BindResp(command: int, systemId: seq<byte>, tlvs: seq<Tlv>)
    | Outbind(systemId: seq<byte>, password: seq<byte>)
    | Bare(command: int)
    | SubmitSm(service: seq<byte>, source: Party, dest: Party, content: Content, tlvs: seq<Tlv>)
    | DeliverSm(service: seq<byte>, source: Party, dest: Party, content: Content, tlvs: seq<Tlv>)
    | SubmitMulti(service: seq<byte>, source: Party, dests: seq<Dest>, content: Content, tlvs: seq<Tlv>)
    | SubmitMultiResp(messageId: seq<byte>, failures: seq<Failure>)
    | MessageIdResp(command: int, messageId: seq<byte>)
    | DeliverResp(messageId: seq<byte>)
    | DataSm(service: seq<byte>, source: Party, dest: Party, esm: nat, registered: nat, coding: nat, tlvs: seq<Tlv>)
    | QuerySm(messageId: seq<byte>, source: Party)
    | QueryResp(messageId: seq<byte>, finalDate: seq<byte>, state: nat, error: nat)
    | CancelSm(service: seq<byte>, messageId: seq<byte>, source: Party, dest: Party)
    | ReplaceSm(messageId: seq<byte>, source: Party, schedule: seq<byte>, validity: seq<byte>, registered: nat,
                defaultId: nat, text: seq<byte>)
    | Alert(source: Party, esme: Party, tlvs: seq<Tlv>)

  function Id(m: Message): int {
    match m
    case Bind(command, _, _, _, _, _) => command
    case BindResp(command, _, _) => command
    case Outbind(_, _) => 0x0B
    case Bare(command) => command
    case SubmitSm(_, _, _, _, _) => 0x04
    case DeliverSm(_, _, _, _, _) => 0x05
    case SubmitMulti(_, _, _, _, _) => 0x21
    case SubmitMultiResp(_, _) => 0x8000_0021
    case MessageIdResp(command, _) => command
    case DeliverResp(_) => 0x8000_0005
    case DataSm(_, _, _, _, _, _, _) => 0x103
    case QuerySm(_, _) => 0x03
    case QueryResp(_, _, _, _) => 0x8000_0003
    case CancelSm(_, _, _, _) => 0x08
    case ReplaceSm(_, _, _, _, _, _, _) => 0x07
    case Alert(_, _, _) => 0x102
  }

  /** Which commands share a layout; bind_receiver, transmitter and transceiver are 1, 2 and 9. */
  predicate Named(m: Message) {
    match m
    case Bind(command, _, _, _, _, _) => command in {0x01, 0x02, 0x09}
    case BindResp(command, _, _) => command in {0x8000_0001, 0x8000_0002, 0x8000_0009}
    case Bare(command) =>
      command in {0x06, 0x8000_0006, 0x8000_0000, 0x8000_0008, 0x8000_0007, 0x15, 0x8000_0015}
    case MessageIdResp(command, _) => command in {0x8000_0004, 0x8000_0103}
    case _ => true
  }

  function FirstContent(c: Content, timeSize: pos): seq<Row> {
    [OneOctet("esm_class", c.esm, true),
     OneOctet("protocol_id", c.protocol, true),
     OneOctet("priority_flag", c.priority, true),
     Text("schedule_delivery_time", c.schedule, timeSize),
     Text("validity_period", c.validity, timeSize)]
  }

  function SecondContent(c: Content): seq<Row> {
    [OneOctet("registered_delivery", c.registered, true),
     OneOctet("replace_if_present_flag", c.replace, true),
     OneOctet("data_coding", c.coding, true),
     OneOctet("sm_default_msg_id", c.defaultId, true)]
  }

  function ContentRows(c: Content, timeSize: pos, tlvs: seq<Entry>): seq<Row> {
    FirstContent(c, timeSize) + SecondContent(c) + ShortMessage(c.text) + [Listed("tlv", tlvs)]
  }

  function SourceRows(p: Party, size: pos): seq<Row> {
    Address("source_addr_ton", "source_addr_npi", "source_addr", p, size)
  }

  function DestinationRows(p: Party, size: pos): seq<Row> {
    Address("dest_addr_ton", "dest_addr_npi", "destination_addr", p, size)
  }

  /** The fields behind the header, in the order of their octets. */
  function Rows(m: Message): seq<Row> {
    match m
    case Bind(command, systemId, password, systemType, version, range) =>
      [Text("system_id", systemId, 16),
       Text("password", password, 9),
       Text("system_type", systemType, 13),
       OneOctet("interface_version", version, command == 0x01 || version == 0x34)]
      + Address("addr_ton", "addr_npi", "address_range", range, 41)
    case BindResp(command, systemId, tlvs) =>
      [Text("system_id", systemId, 16), Listed("tlv", TlvEntries(command, tlvs))]
    case Outbind(systemId, password) => [Text("system_id", systemId, 16), Text("password", password, 9)]
    case Bare(_) => []
    case SubmitSm(service, source, dest, content, tlvs) =>
      [Text("service_type", service, 6)] + SourceRows(source, 21) + DestinationRows(dest, 21)
      + ContentRows(content, 17, TlvEntries(0x04, tlvs))
    case DeliverSm(service, source, dest, content, tlvs) =>
      [Text("service_type", service, 6)] + SourceRows(source, 21) + DestinationRows(dest, 21)
      + ContentRows(content, 1, TlvEntries(0x05, tlvs))
    case SubmitMulti(service, source, dests, content, tlvs) =>
      [Text("service_type", service, 6)] + SourceRows(source, 21)
      + [OneOctet("number_of_dests", |dests|, true), Listed("dest_addr_def", DestEntries(dests))]
      + ContentRows(content, 17, TlvEntries(0x21, tlvs))
    case SubmitMultiResp(messageId, failures) =>
      [Text("message_id", messageId, 65), OneOctet("no_unsuccess", |failures|, true),
       Listed("unsuccess_smes", FailureEntries(failures))]
    case MessageIdResp(_, messageId) => [Text("message_id", messageId, 65)]
    case DeliverResp(messageId) => [Text("message_id", messageId, 1)]
    case DataSm(service, source, dest, esm, registered, coding, tlvs) =>
      [Text("service_type", service, 6)] + SourceRows(source, 21) + DestinationRows(dest, 65)
      + [OneOctet("esm_class", esm, true), OneOctet("registered_delivery", registered, true),
         OneOctet("data_coding", coding, true), Listed("tlv", TlvEntries(0x103, tlvs))]
    case QuerySm(messageId, source) => [Text("message_id", messageId, 65)] + SourceRows(source, 21)
    case QueryResp(messageId, finalDate, state, error) =>
      [Text("message_id", messageId, 65), Text("final_date", finalDate, 17),
       OneOctet("message_state", state, true), OneOctet("error_code", error, true)]
    case CancelSm(service, messageId, source, dest) =>
      [Text("service_type", service, 6), Text("message_id", messageId, 65)]
      + SourceRows(source, 21) + DestinationRows(dest, 21)
    case ReplaceSm(messageId, source, schedule, validity, registered, defaultId, text) =>
      [Text("message_id", messageId, 65)] + SourceRows(source, 21)
      + [Text("schedule_delivery_time", schedule, 17), Text("validity_period", validity, 17),
         OneOctet("registered_delivery", registered, true), OneOctet("sm_default_msg_id", defaultId, true)]
      + ShortMessage(text)
    case Alert(source, esme, tlvs) =>
      SourceRows(source, 65) + Address("esme_addr_ton", "esme_addr_npi", "esme_addr", esme, 65)
      + [Listed("tlv", TlvEntries(0x102, tlvs))]
  }

  function Header(id: nat, length: nat, status: nat, number: nat): seq<Row> {
    [Word("command_length", length, true), Word("command_id", id, true),
     Word("command_status", status, IsCommandStatus(status)), Word("sequence_number", number, number > 0)]
  }

  // A row and the item of the frame that it stands for

  function RowPrev(rows: seq<Row>, i: nat): nat
    requires i <= |rows|
  {
    if i == 0 then 0 else SlotNum(rows[i - 1].slot)
  }

  ghost predicate TokensFit(ts: seq<Token>, octets: seq<byte>, written: bool, taken: bool) {
    && AllTyped(ts) && (forall t | t in ts :: Fitting(t)) && EncodeAll(ts) == octets
    && (AllAccepted(ts) <==> written) && (AllTaken(ts) <==> taken)
  }

  ghost predicate RowFits(item: Item, prev: nat, row: Row) {
    && item.name == row.name
    && SlotTyped(item, prev, row.slot) && CountMatches(item, prev, row.slot)
    && TokensFit(FlattenSlot(item, prev, row.slot), row.octets, row.written, row.taken)
    && KeptSlot(item, row.slot) == row.arrives
  }

  /** The relation holds between every item and its row, for what the field before holds. */
  ghost predicate Pairwise(f: (Item, nat, Row) -> bool, items: seq<Item>, rows: seq<Row>) {
    |items| == |rows| && forall i {:trigger RowPrev(rows, i)} | 0 <= i < |items| :: f(items[i], RowPrev(rows, i), rows[i])
  }

  ghost predicate Fit(items: seq<Item>, rows: seq<Row>) {
    Pairwise(RowFits, items, rows)
  }

  /** What the field before holds does not matter to the item. */
  predicate Independent(item: Item) {
    item.Tail? || (item.Field? && !item.kind.Octet8? && !item.kind.Octet16?)
  }

  lemma PrevIrrelevant(item: Item, prev: nat, other: nat, row: Row)
    requires Independent(item) && RowFits(item, prev, row)
    ensures RowFits(item, other, row)
  {
  }

  lemma PairwiseConcat(f: (Item, nat, Row) -> bool, a: seq<Item>, ra: seq<Row>, b: seq<Item>, rb: seq<Row>)
    requires Pairwise(f, a, ra) && Pairwise(f, b, rb)
    requires b != [] ==> forall prev :: f(b[0], prev, rb[0])
    ensures Pairwise(f, a + b, ra + rb)
  {
    var items, rows := a + b, ra + rb;
    forall i | 0 <= i < |items| ensures f(items[i], RowPrev(rows, i), rows[i]) {
      if i < |a| {
        assert f(a[i], RowPrev(ra, i), ra[i]);
      } else {
        assert f(b[i - |a|], RowPrev(rb, i - |a|), rb[i - |a|]);
      }
    }
  }

  lemma FitConcat(a: seq<Item>, ra: seq<Row>, b: seq<Item>, rb: seq<Row>)
    requires Fit(a, ra) && Fit(b, rb) && (b == [] || Independent(b[0]))
    ensures Fit(a + b, ra + rb)
  {
    if b != [] {
      assert RowFits(b[0], RowPrev(rb, 0), rb[0]);
      forall prev: nat ensures RowFits(b[0], prev, rb[0]) { PrevIrrelevant(b[0], 0, prev, rb[0]); }
    }
    PairwiseConcat(RowFits, a, ra, b, rb);
  }

  lemma OneToken(t: Token)
    requires Typed(t)
    ensures AllTyped([t]) && EncodeAll([t]) == Encoding(t)
    ensures (AllAccepted([t]) <==> Pack.Accepted(t)) && (AllTaken([t]) <==> Taken(t))
    ensures (forall u | u in [t] :: Fitting(u)) <==> Fitting(t)
  {
    assert t in [t] && [t][1..] == [];
    assert Encoding(t) + [] == Encoding(t);
  }

  lemma Powers()
    ensures Pow256(1) == 256 && Pow256(2) == 0x1_0000 && Pow256(4) == 0x1_0000_0000
  {
    PowerOfFour();
    assert Pow256(1) == 256 * Pow256(0) && Pow256(2) == 256 * Pow256(1);
  }

  lemma TwiceByte(n: nat)
    ensures n / 256 / 256 == n / 0x1_0000
  {
  }

  lemma LastTwo(w: nat, n: nat)
    requires w >= 2
    ensures BigEndian(w, n) == BigEndian(w - 2, n / 256 / 256) + [n / 256 % 256, n % 256]
  {
    assert BigEndian(w, n) == BigEndian(w - 1, n / 256) + [n % 256];
    assert BigEndian(w - 1, n / 256) == BigEndian(w - 2, n / 256 / 256) + [n / 256 % 256];
  }

  lemma BigEndianOctets(n: nat)
    ensures BigEndian(1, n) == [n % 256] && BigEndian(2, n) == TwoOctets(n) && BigEndian(4, n) == FourOctets(n)
  {
    TwiceByte(n);
    LowOctets(n);
    LowOctets(n / 0x1_0000);
    LastTwo(4, n);
  }

  lemma LowOctets(n: nat)
    ensures BigEndian(1, n) == [n % 256] && BigEndian(2, n) == TwoOctets(n)
  {
    assert BigEndian(1, n) == [] + [n % 256];
    assert BigEndian(1, n / 256) == [] + [n / 256 % 256];
  }

  lemma OneOctetFits(item: Item, prev: nat, name: string, n: nat, check: Check)
    requires item == Field(name, U08(check)) && n < 256
    ensures RowFits(item, prev, OneOctet(name, n, Passes(check, n)))
  {
    Powers();
    BigEndianOctets(n);
    OneToken(Token(U08(check), 0, Num(n)));
  }

  lemma WordFits(item: Item, prev: nat, name: string, n: nat, check: Check)
    requires item == Field(name, U32(check)) && n < 0x1_0000_0000
    ensures RowFits(item, prev, Word(name, n, Passes(check, n)))
  {
    Powers();
    BigEndianOctets(n);
    OneToken(Token(U32(check), 0, Num(n)));
  }

  lemma TextFits(item: Item, prev: nat, name: string, v: seq<byte>, size: pos)
    requires item == Field(name, COctet(size)) && 0 !in v && |v| <= size
    ensures RowFits(item, prev, Text(name, v, size))
  {
    OneToken(Token(COctet(size), 0, Octets(v)));
  }

  lemma ShortMessageFits(text: seq<byte>)
    requires |text| < 256
    ensures Fit([Field("sm_length", U08(AnyValue)), Field("short_message", Octet8(254))], ShortMessage(text))
  {
    OneOctetFits(Field("sm_length", U08(AnyValue)), 0, "sm_length", |text|, AnyValue);
    OneToken(Token(Octet8(254), |text|, Octets(text)));
  }

  lemma NumberTypesFit(ton: string, npi: string, p: Party)
    requires p.ton < 256 && p.npi < 256
    ensures Fit([Field(ton, U08(Ton)), Field(npi, U08(Npi))],
                [OneOctet(ton, p.ton, p.ton <= 6), OneOctet(npi, p.npi, NpiListed(p.npi))])
  {
    OneOctetFits(Field(ton, U08(Ton)), 0, ton, p.ton, Ton);
    OneOctetFits(Field(npi, U08(Npi)), p.ton, npi, p.npi, Npi);
  }

  lemma OneTextFits(name: string, v: seq<byte>, size: pos)
    requires StringFits(v, size)
    ensures Fit([Field(name, COctet(size))], [Text(name, v, size)])
  {
    TextFits(Field(name, COctet(size)), 0, name, v, size);
  }

  lemma AddressFits(ton: string, npi: string, addr: string, p: Party, size: pos)
    requires p.ton < 256 && p.npi < 256 && StringFits(p.addr, size)
    ensures Fit([Field(ton, U08(Ton)), Field(npi, U08(Npi)), Field(addr, COctet(size))], Address(ton, npi, addr, p, size))
  {
    NumberTypesFit(ton, npi, p);
    OneTextFits(addr, p.addr, size);
    var rows := Address(ton, npi, addr, p, size);
    FitConcat([Field(ton, U08(Ton)), Field(npi, U08(Npi))], [rows[0], rows[1]], [Field(addr, COctet(size))], [rows[2]]);
    assert rows == [rows[0], rows[1]] + [rows[2]];
    assert [Field(ton, U08(Ton)), Field(npi, U08(Npi)), Field(addr, COctet(size))]
           == [Field(ton, U08(Ton)), Field(npi, U08(Npi))] + [Field(addr, COctet(size))];
  }

  // Records

  ghost predicate EntryFits(r: RecordKind, e: Entry) {
    && RecordTyped(r, e.record)
    && TokensFit(FlattenRecord(r, e.record, 0), e.octets, e.valid, e.valid)
    && KeptFrom(r, e.record, 0) == e.arrives
  }

  lemma TokensConcat(a: seq<Token>, x: seq<byte>, w: bool, k: bool, b: seq<Token>, y: seq<byte>, w': bool, k': bool)
    requires TokensFit(a, x, w, k) && TokensFit(b, y, w', k')
    ensures TokensFit(a + b, x + y, w && w', k && k')
  {
    TypedInTwo(a, b);
    EncodeConcat(a, b);
    forall t | t in a || t in b ensures t in a + b {}
    forall t | t in a + b ensures t in a || t in b {}
  }

  lemma EntriesFitNext(r: RecordKind, es: seq<Entry>)
    requires es != [] && EntryFits(r, es[0])
    requires TokensFit(FlattenList(r, Records(es[1..])), JoinEntries(es[1..]), AllValid(es[1..]), AllValid(es[1..]))
    requires KeptRecords(r, Records(es[1..])) == Arrivals(es[1..])
    ensures TokensFit(FlattenList(r, Records(es)), JoinEntries(es), AllValid(es), AllValid(es))
    ensures KeptRecords(r, Records(es)) == Arrivals(es)
  {
    var e, rest := es[0], es[1..];
    FirstRecords(es);
    TokensConcat(FlattenRecord(r, e.record, 0), e.octets, e.valid, e.valid, FlattenList(r, Records(rest)),
                 JoinEntries(rest), AllValid(rest), AllValid(rest));
  }

  lemma FirstRecords(es: seq<Entry>)
    requires es != []
    ensures Records(es)[0] == es[0].record && Records(es)[1..] == Records(es[1..])
    ensures Arrivals(es) == [es[0].arrives] + Arrivals(es[1..])
  {
  }

  lemma {:induction false} EntriesFit(r: RecordKind, es: seq<Entry>)
    requires forall i | 0 <= i < |es| :: EntryFits(r, es[i])
    ensures TokensFit(FlattenList(r, Records(es)), JoinEntries(es), AllValid(es), AllValid(es))
    ensures KeptRecords(r, Records(es)) == Arrivals(es)
  {
    if es != [] {
      EntriesFit(r, es[1..]);
      EntriesFitNext(r, es);
    }
  }

  lemma ListedFits(item: Item, prev: nat, name: string, es: seq<Entry>)
    requires !item.Field? && item.name == name && (item.Counted? ==> prev == |es|)
    requires forall i | 0 <= i < |es| :: EntryFits(RecordKindOf(item), es[i])
    ensures RowFits(item, prev, Listed(name, es))
  {
    var r := RecordKindOf(item);
    EntriesFit(r, es);
    EntriesTyped(r, es);
  }

  lemma EntriesTyped(r: RecordKind, es: seq<Entry>)
    requires forall i | 0 <= i < |es| :: EntryFits(r, es[i])
    ensures forall rec | rec in Records(es) :: RecordTyped(r, rec)
  {
    forall rec | rec in Records(es) ensures RecordTyped(r, rec) {
      var i :| 0 <= i < |es| && rec == es[i].record;
      assert EntryFits(r, es[i]);
    }
  }

  /** Which tables of TLVs the commands use. */
  predicate Uses(command: int, table: TlvTable) {
    match table
    case AlertNotificationTlv => command == 0x102
    case BindRespTlv => command in {0x8000_0001, 0x8000_0002, 0x8000_0009}
    case DataSmTlv => command == 0x103
    case DeliverSmTlv => command == 0x05
    case SubmitMultiTlv => command == 0x21
    case SubmitSmTlv => command == 0x04
  }

  lemma TlvKind(command: int, table: TlvTable, tag: nat)
    requires Uses(command, table)
    ensures TlvValueKind(table, tag)
            == match TlvWidth(command, tag)
               case 1 => U08(AnyValue)
               case 2 => U16(AnyValue)
               case 4 => U32(AnyValue)
               case _ => Octet16(TlvLimit(command, tag))
  {
  }

  lemma TlvWidths(command: int, tag: nat)
    ensures TlvWidth(command, tag) in {0, 1, 2, 4}
  {
  }

  lemma TlvValueFits(command: int, table: TlvTable, t: Tlv)
    requires Uses(command, table) && TlvEntry(command, t).fits
    ensures var u := MakeToken(TlvValueKind(table, t.tag), t.length, t.value);
            && Typed(u) && Fitting(u) && Encoding(u) == TlvOctets(TlvWidth(command, t.tag), t.value)
            && (Pack.Accepted(u) <==> TlvEntry(command, t).valid) && (Taken(u) <==> TlvEntry(command, t).valid)
            && !u.kind.COctet?
  {
    TlvKind(command, table, t.tag);
    TlvWidths(command, t.tag);
    Powers();
    if t.value.Num? { BigEndianOctets(t.value.n); }
  }

  /** The values of a record from the given one on: their shape, their octets, and what they are read as. */
  ghost predicate ValuesFit(r: RecordKind, rec: Record, done: nat, octets: seq<byte>, valid: bool, arrives: Record)
    requires done <= |rec|
  {
    && RecordShape(r, rec, done)
    && TokensFit(FlattenRecord(r, rec, done), octets, valid, valid)
    && KeptFrom(r, rec, done) == arrives
  }

  lemma NoMoreValues(r: RecordKind, rec: Record)
    requires RecordNext(r, rec).None?
    ensures ValuesFit(r, rec, |rec|, [], true, [])
  {
  }

  lemma NextValue(r: RecordKind, rec: Record, done: nat, k: Kind, x: seq<byte>, v: bool, y: seq<byte>, w: bool, more: Record)
    requires done < |rec| && RecordNext(r, rec[..done]) == Some(k) && ValuesFit(r, rec, done + 1, y, w, more)
    requires TokensFit([MakeToken(k, LastNum(rec[..done]), rec[done])], x, v, v)
    ensures ValuesFit(r, rec, done, x + y, v && w, [KeptValue(k, rec[done])] + more)
  {
    TokensConcat([MakeToken(k, LastNum(rec[..done]), rec[done])], x, v, v, FlattenRecord(r, rec, done + 1), y, w, w);
  }

  function NumberKind(width: nat, check: Check): Kind {
    if width == 1 then U08(check) else if width == 2 then U16(check) else U32(check)
  }

  lemma NextNumber(r: RecordKind, rec: Record, done: nat, width: nat, check: Check, n: nat,
                   y: seq<byte>, w: bool, more: Record)
    requires width in {1, 2, 4} && n < Pow256(width) && done < |rec| && rec[done] == Num(n)
    requires RecordNext(r, rec[..done]) == Some(NumberKind(width, check)) && ValuesFit(r, rec, done + 1, y, w, more)
    ensures ValuesFit(r, rec, done, BigEndian(width, n) + y, Passes(check, n) && w, [Num(n)] + more)
  {
    var k := NumberKind(width, check);
    OneToken(Token(k, 0, Num(n)));
    NextValue(r, rec, done, k, BigEndian(width, n), Passes(check, n), y, w, more);
  }

  lemma NextText(r: RecordKind, rec: Record, done: nat, size: pos, v: seq<byte>, y: seq<byte>, w: bool, more: Record)
    requires StringFits(v, size) && done < |rec| && rec[done] == Octets(v)
    requires RecordNext(r, rec[..done]) == Some(COctet(size)) && ValuesFit(r, rec, done + 1, y, w, more)
    ensures ValuesFit(r, rec, done, Shortened(v, size) + [0] + y, w, [Octets(Shortened(v, size))] + more)
  {
    OneToken(Token(COctet(size), 0, Octets(v)));
    NextValue(r, rec, done, COctet(size), Shortened(v, size) + [0], true, y, w, more);
  }

  // TLVs

  lemma TlvNext(table: TlvTable, tag: nat, length: nat, v: Value)
    ensures var r, rec := TlvRecord(table), [Num(tag), Num(length), v];
            && RecordNext(r, rec[..0]) == RecordNext(r, rec[..1]) == Some(U16(AnyValue))
            && RecordNext(r, rec[..2]) == Some(TlvValueKind(table, tag)) && RecordNext(r, rec).None?
            && LastNum(rec[..2]) == length
  {
  }

  lemma TlvValueOnly(command: int, table: TlvTable, t: Tlv)
    requires Uses(command, table) && TlvEntry(command, t).fits
    ensures var e, o := TlvEntry(command, t), TlvOctets(TlvWidth(command, t.tag), t.value);
            ValuesFit(TlvRecord(table), e.record, 2, o + [], e.valid, [t.value] + [])
  {
    var r, e, k := TlvRecord(table), TlvEntry(command, t), TlvValueKind(table, t.tag);
    TlvNext(table, t.tag, t.length, t.value);
    TlvValueFits(command, table, t);
    OneToken(MakeToken(k, t.length, t.value));
    NoMoreValues(r, e.record);
    NextValue(r, e.record, 2, k, TlvOctets(TlvWidth(command, t.tag), t.value), e.valid, [], true, []);
  }

  lemma TlvLengthOn(command: int, table: TlvTable, t: Tlv)
    requires Uses(command, table) && TlvEntry(command, t).fits
    ensures var e := TlvEntry(command, t);
            ValuesFit(TlvRecord(table), e.record, 1,
                      BigEndian(2, t.length) + (TlvOctets(TlvWidth(command, t.tag), t.value) + []),
                      true && e.valid, [Num(t.length)] + ([t.value] + []))
  {
    var r, e, o := TlvRecord(table), TlvEntry(command, t), TlvOctets(TlvWidth(command, t.tag), t.value);
    Powers();
    TlvNext(table, t.tag, t.length, t.value);
    TlvValueOnly(command, table, t);
    NextNumber(r, e.record, 1, 2, AnyValue, t.length, o + [], e.valid, [t.value] + []);
  }

  lemma TlvFits(command: int, table: TlvTable, t: Tlv)
    requires Uses(command, table) && TlvEntry(command, t).fits
    ensures EntryFits(TlvRecord(table), TlvEntry(command, t))
  {
    var r, e := TlvRecord(table), TlvEntry(command, t);
    var y := BigEndian(2, t.length) + (TlvOctets(TlvWidth(command, t.tag), t.value) + []);
    Powers();
    TlvNext(table, t.tag, t.length, t.value);
    TlvLengthOn(command, table, t);
    NextNumber(r, e.record, 0, 2, AnyValue, t.tag, y, true && e.valid, [Num(t.length)] + ([t.value] + []));
    TlvJoined(command, t);
  }

  lemma TlvJoined(command: int, t: Tlv)
    ensures var e, o := TlvEntry(command, t), TlvOctets(TlvWidth(command, t.tag), t.value);
            && e.octets == BigEndian(2, t.tag) + (BigEndian(2, t.length) + (o + []))
            && e.arrives == [Num(t.tag)] + ([Num(t.length)] + ([t.value] + []))
  {
    LowOctets(t.tag);
    LowOctets(t.length);
    JoinThree(TwoOctets(t.tag), TwoOctets(t.length), TlvOctets(TlvWidth(command, t.tag), t.value));
  }

  lemma JoinThree<T>(a: seq<T>, b: seq<T>, c: seq<T>)
    ensures a + (b + (c + [])) == a + b + c
  {
  }

  // Destinations

  lemma SmeNext(ton: nat, npi: nat, addr: Value)
    ensures var rec := [Num(1), Num(ton), Num(npi), addr];
            && RecordNext(DadRecord, rec[..0]) == Some(U08(DestFlag)) && RecordNext(DadRecord, rec[..1]) == Some(U08(Ton))
            && RecordNext(DadRecord, rec[..2]) == Some(U08(Npi)) && RecordNext(DadRecord, rec[..3]) == Some(COctet(21))
            && RecordNext(DadRecord, rec).None?
  {
  }

  /** An address in a record, its number type first; what follows it is known. */
  lemma PartyFits(r: RecordKind, rec: Record, done: nat, p: Party, y: seq<byte>, more: Record)
    requires p.ton < 256 && p.npi < 256 && StringFits(p.addr, 21)
    requires done + 3 <= |rec| && rec[done] == Num(p.ton) && rec[done + 1] == Num(p.npi) && rec[done + 2] == Octets(p.addr)
    requires RecordNext(r, rec[..done]) == Some(U08(Ton)) && RecordNext(r, rec[..done + 1]) == Some(U08(Npi))
    requires RecordNext(r, rec[..done + 2]) == Some(COctet(21)) && ValuesFit(r, rec, done + 3, y, true, more)
    ensures ValuesFit(r, rec, done, BigEndian(1, p.ton) + (BigEndian(1, p.npi) + (Shortened(p.addr, 21) + [0] + y)),
                      Passes(Ton, p.ton) && (Passes(Npi, p.npi) && true),
                      [Num(p.ton)] + ([Num(p.npi)] + ([Octets(Shortened(p.addr, 21))] + more)))
  {
    Powers();
    NextText(r, rec, done + 2, 21, p.addr, y, true, more);
    PartyNumbers(r, rec, done, p, Shortened(p.addr, 21) + [0] + y, [Octets(Shortened(p.addr, 21))] + more);
  }

  lemma PartyNumbers(r: RecordKind, rec: Record, done: nat, p: Party, y: seq<byte>, more: Record)
    requires p.ton < 256 && p.npi < 256
    requires done + 2 <= |rec| && rec[done] == Num(p.ton) && rec[done + 1] == Num(p.npi)
    requires RecordNext(r, rec[..done]) == Some(U08(Ton)) && RecordNext(r, rec[..done + 1]) == Some(U08(Npi))
    requires ValuesFit(r, rec, done + 2, y, true, more)
    ensures ValuesFit(r, rec, done, BigEndian(1, p.ton) + (BigEndian(1, p.npi) + y),
                      Passes(Ton, p.ton) && (Passes(Npi, p.npi) && true), [Num(p.ton)] + ([Num(p.npi)] + more))
  {
    Powers();
    NextNumber(r, rec, done + 1, 1, Npi, p.npi, y, true, more);
    NextNumber(r, rec, done, 1, Ton, p.ton, BigEndian(1, p.npi) + y, Passes(Npi, p.npi) && true, [Num(p.npi)] + more);
  }

  lemma PartyOctets(p: Party, y: seq<byte>, more: Record)
    requires p.ton < 256 && p.npi < 256
    ensures BigEndian(1, p.ton) + (BigEndian(1, p.npi) + (Shortened(p.addr, 21) + [0] + y))
            == [p.ton, p.npi] + Shortened(p.addr, 21) + [0] + y
    ensures [Num(p.ton)] + ([Num(p.npi)] + ([Octets(Shortened(p.addr, 21))] + more))
            == [Num(p.ton), Num(p.npi), Octets(Shortened(p.addr, 21))] + more
    ensures Passes(Ton, p.ton) && (Passes(Npi, p.npi) && true) <==> p.ton <= 6 && NpiListed(p.npi)
  {
    LowOctets(p.ton);
    LowOctets(p.npi);
    OctetsInFront(p.ton, p.npi, Shortened(p.addr, 21), y);
    ValuesInFront(Num(p.ton), Num(p.npi), Octets(Shortened(p.addr, 21)), more);
  }

  lemma OctetsInFront(a: byte, b: byte, v: seq<byte>, y: seq<byte>)
    ensures [a] + ([b] + (v + [0] + y)) == [a, b] + v + [0] + y
  {
  }

  lemma ValuesInFront(a: Value, b: Value, c: Value, more: Record)
    ensures [a] + ([b] + ([c] + more)) == [a, b, c] + more
  {
  }

  lemma SmeFits(p: Party)
    requires DestEntry(Sme(p)).fits
    ensures EntryFits(DadRecord, DestEntry(Sme(p)))
  {
    var r, e := DadRecord, DestEntry(Sme(p));
    var rec := e.record;
    SmeNext(p.ton, p.npi, Octets(p.addr));
    NoMoreValues(r, rec);
    PartyFits(r, rec, 1, p, [], []);
    PartyOctets(p, [], []);
    Powers();
    var y := [p.ton, p.npi] + Shortened(p.addr, 21) + [0] + [];
    NextNumber(r, rec, 0, 1, DestFlag, 1, y, e.valid, [rec[1], rec[2], e.arrives[3]] + []);
    LowOctets(1);
    SmeOctets(p);
  }

  lemma SmeOctets(p: Party)
    requires p.ton < 256 && p.npi < 256
    ensures var e := DestEntry(Sme(p));
            && e.octets == [1] + ([p.ton, p.npi] + Shortened(p.addr, 21) + [0] + [])
            && e.arrives == [Num(1)] + ([Num(p.ton), Num(p.npi), Octets(Shortened(p.addr, 21))] + [])
  {
  }

  lemma ListNameFits(name: seq<byte>)
    requires DestEntry(ListName(name)).fits
    ensures EntryFits(DadRecord, DestEntry(ListName(name)))
  {
    var e := DestEntry(ListName(name));
    var rec, o := e.record, Shortened(name, 21) + [0];
    ListNameNext(Octets(name));
    NoMoreValues(DadRecord, rec);
    NextText(DadRecord, rec, 1, 21, name, [], true, []);
    Powers();
    NextNumber(DadRecord, rec, 0, 1, DestFlag, 2, o + [], true, [e.arrives[1]] + []);
    LowOctets(2);
    assert e.octets == [2] + (o + []) && e.arrives == [rec[0]] + ([e.arrives[1]] + []);
  }

  lemma ListNameNext(name: Value)
    ensures var rec := [Num(2), name];
            && RecordNext(DadRecord, rec[..0]) == Some(U08(DestFlag)) && RecordNext(DadRecord, rec[..1]) == Some(COctet(21))
            && RecordNext(DadRecord, rec).None?
  {
  }

  lemma NeitherFits(flag: nat)
    requires DestEntry(Neither(flag)).fits
    ensures EntryFits(DadRecord, DestEntry(Neither(flag)))
  {
    var rec := DestEntry(Neither(flag)).record;
    NeitherNext(flag);
    NoMoreValues(DadRecord, rec);
    Powers();
    NextNumber(DadRecord, rec, 0, 1, DestFlag, flag, [], true, []);
    LowOctets(flag);
    NeitherJoined(flag);
  }

  lemma NeitherJoined(flag: nat)
    requires flag < 256
    ensures var e := DestEntry(Neither(flag)); e.octets == [flag] + [] && e.arrives == [Num(flag)] + []
  {
  }

  lemma NeitherNext(flag: nat)
    requires flag != 1 && flag != 2
    ensures var rec := [Num(flag)];
            RecordNext(DadRecord, rec[..0]) == Some(U08(DestFlag)) && RecordNext(DadRecord, rec).None?
  {
  }

  lemma DestFits(d: Dest)
    requires DestEntry(d).fits
    ensures EntryFits(DadRecord, DestEntry(d))
  {
    match d
    case Sme(p) => SmeFits(p);
    case ListName(name) => ListNameFits(name);
    case Neither(flag) => NeitherFits(flag);
  }

  // Failures

  lemma FailureNext(ton: nat, npi: nat, addr: Value, error: nat)
    ensures var rec := [Num(ton), Num(npi), addr, Num(error)];
            && RecordNext(UdadRecord, rec[..0]) == Some(U08(Ton)) && RecordNext(UdadRecord, rec[..1]) == Some(U08(Npi))
            && RecordNext(UdadRecord, rec[..2]) == Some(COctet(21))
            && RecordNext(UdadRecord, rec[..3]) == Some(U32(AnyValue)) && RecordNext(UdadRecord, rec).None?
  {
  }

  lemma FailureFits(f: Failure)
    requires FailureEntry(f).fits
    ensures EntryFits(UdadRecord, FailureEntry(f))
  {
    var r, e, p := UdadRecord, FailureEntry(f), f.p;
    var rec := e.record;
    FailureNext(p.ton, p.npi, Octets(p.addr), f.error);
    NoMoreValues(r, rec);
    Powers();
    NextNumber(r, rec, 3, 4, AnyValue, f.error, [], true, []);
    PartyFits(r, rec, 0, p, BigEndian(4, f.error) + [], [rec[3]] + []);
    PartyOctets(p, BigEndian(4, f.error) + [], [rec[3]] + []);
    BigEndianOctets(f.error);
    FailureOctets(f);
  }

  lemma FailureOctets(f: Failure)
    requires f.p.ton < 256 && f.p.npi < 256
    ensures var e, p := FailureEntry(f), f.p;
            && e.octets == [p.ton, p.npi] + Shortened(p.addr, 21) + [0] + (FourOctets(f.error) + [])
            && e.arrives == [Num(p.ton), Num(p.npi), Octets(Shortened(p.addr, 21))] + ([Num(f.error)] + [])
  {
  }

  // The parts of the frames

  /** The C types of the fields can hold what they are given. */
  predicate Stored(rows: seq<Row>) {
    forall row | row in rows :: row.fits
  }

  lemma StoredInTwo(a: seq<Row>, b: seq<Row>)
    ensures Stored(a + b) <==> Stored(a) && Stored(b)
  {
    forall row | row in a || row in b ensures row in a + b {}
    forall row | row in a + b ensures row in a || row in b {}
  }

  lemma TextFit(name: string, v: seq<byte>, size: pos)
    requires Stored([Text(name, v, size)])
    ensures Fit([Field(name, COctet(size))], [Text(name, v, size)])
  {
    assert Text(name, v, size) in [Text(name, v, size)];
    OneTextFits(name, v, size);
  }

  lemma TwoTextsFit(one: string, v: seq<byte>, m: pos, two: string, w: seq<byte>, n: pos)
    requires Stored([Text(one, v, m), Text(two, w, n)])
    ensures Fit([Field(one, COctet(m)), Field(two, COctet(n))], [Text(one, v, m), Text(two, w, n)])
  {
    var rows := [Text(one, v, m), Text(two, w, n)];
    assert rows[0] in rows && rows[1] in rows;
    TextFits(Field(one, COctet(m)), 0, one, v, m);
    TextFits(Field(two, COctet(n)), 0, two, w, n);
  }

  lemma OctetFit(name: string, n: nat, check: Check)
    requires Stored([OneOctet(name, n, Passes(check, n))])
    ensures Fit([Field(name, U08(check))], [OneOctet(name, n, Passes(check, n))])
  {
    var rows := [OneOctet(name, n, Passes(check, n))];
    assert rows[0] in rows;
    OneOctetFits(Field(name, U08(check)), 0, name, n, check);
  }

  lemma TwoOctetFields(one: string, m: nat, two: string, n: nat)
    requires Stored([OneOctet(one, m, true), OneOctet(two, n, true)])
    ensures Fit([Field(one, U08(AnyValue)), Field(two, U08(AnyValue))], [OneOctet(one, m, true), OneOctet(two, n, true)])
  {
    var rows := [OneOctet(one, m, true), OneOctet(two, n, true)];
    assert rows[0] in rows && rows[1] in rows;
    OneOctetFits(Field(one, U08(AnyValue)), 0, one, m, AnyValue);
    OneOctetFits(Field(two, U08(AnyValue)), m, two, n, AnyValue);
  }

  lemma PartyFit(ton: string, npi: string, addr: string, p: Party, size: pos)
    requires Stored(Address(ton, npi, addr, p, size))
    ensures Fit([Field(ton, U08(Ton)), Field(npi, U08(Npi)), Field(addr, COctet(size))], Address(ton, npi, addr, p, size))
  {
    var rows := Address(ton, npi, addr, p, size);
    assert rows[0] in rows && rows[1] in rows && rows[2] in rows;
    AddressFits(ton, npi, addr, p, size);
  }

  lemma TextOfMessageFit(text: seq<byte>)
    requires Stored(ShortMessage(text))
    ensures Fit([Field("sm_length", U08(AnyValue)), Field("short_message", Octet8(254))], ShortMessage(text))
  {
    var rows := ShortMessage(text);
    assert rows[0] in rows;
    ShortMessageFits(text);
  }

  lemma TlvsFit(command: int, table: TlvTable, tlvs: seq<Tlv>)
    requires Uses(command, table) && Stored([Listed("tlv", TlvEntries(command, tlvs))])
    ensures Fit([Tail("tlv", table)], [Listed("tlv", TlvEntries(command, tlvs))])
  {
    var es := TlvEntries(command, tlvs);
    var rows := [Listed("tlv", es)];
    assert rows[0] in rows;
    forall i | 0 <= i < |es| ensures EntryFits(TlvRecord(table), es[i]) {
      assert es[i] in es;
      TlvFits(command, table, tlvs[i]);
    }
    ListedFits(Tail("tlv", table), 0, "tlv", es);
  }

  lemma DestsFit(dests: seq<Dest>)
    requires Stored([OneOctet("number_of_dests", |dests|, true), Listed("dest_addr_def", DestEntries(dests))])
    ensures Fit([Field("number_of_dests", U08(AnyValue)), Counted("dest_addr_def", DadRecord)],
                [OneOctet("number_of_dests", |dests|, true), Listed("dest_addr_def", DestEntries(dests))])
  {
    var es := DestEntries(dests);
    var rows := [OneOctet("number_of_dests", |dests|, true), Listed("dest_addr_def", es)];
    assert rows[0] in rows && rows[1] in rows;
    forall i | 0 <= i < |es| ensures EntryFits(DadRecord, es[i]) {
      assert es[i] in es;
      DestFits(dests[i]);
    }
    OneOctetFits(Field("number_of_dests", U08(AnyValue)), 0, "number_of_dests", |dests|, AnyValue);
    ListedFits(Counted("dest_addr_def", DadRecord), |dests|, "dest_addr_def", es);
  }

  lemma FailuresFit(failures: seq<Failure>)
    requires Stored([OneOctet("no_unsuccess", |failures|, true), Listed("unsuccess_smes", FailureEntries(failures))])
    ensures Fit([Field("no_unsuccess", U08(AnyValue)), Counted("unsuccess_smes", UdadRecord)],
                [OneOctet("no_unsuccess", |failures|, true), Listed("unsuccess_smes", FailureEntries(failures))])
  {
    var es := FailureEntries(failures);
    var rows := [OneOctet("no_unsuccess", |failures|, true), Listed("unsuccess_smes", es)];
    assert rows[0] in rows && rows[1] in rows;
    forall i | 0 <= i < |es| ensures EntryFits(UdadRecord, es[i]) {
      assert es[i] in es;
      FailureFits(failures[i]);
    }
    OneOctetFits(Field("no_unsuccess", U08(AnyValue)), 0, "no_unsuccess", |failures|, AnyValue);
    ListedFits(Counted("unsuccess_smes", UdadRecord), |failures|, "unsuccess_smes", es);
  }

  lemma FirstStored(c: Content, timeSize: pos)
    requires Stored(FirstContent(c, timeSize))
    ensures c.esm < 256 && c.protocol < 256 && c.priority < 256
    ensures StringFits(c.schedule, timeSize) && StringFits(c.validity, timeSize)
  {
    var rows := FirstContent(c, timeSize);
    assert rows[0] in rows && rows[1] in rows && rows[2] in rows && rows[3] in rows && rows[4] in rows;
  }

  lemma SecondStored(c: Content)
    requires Stored(SecondContent(c))
    ensures c.registered < 256 && c.replace < 256 && c.coding < 256 && c.defaultId < 256
  {
    var rows := SecondContent(c);
    assert rows[0] in rows && rows[1] in rows && rows[2] in rows && rows[3] in rows;
  }

  lemma FirstContentFits(c: Content, timeSize: pos)
    requires c.esm < 256 && c.protocol < 256 && c.priority < 256
    requires StringFits(c.schedule, timeSize) && StringFits(c.validity, timeSize)
    ensures Fit([Field("esm_class", U08(AnyValue)),
                 Field("protocol_id", U08(AnyValue)),
                 Field("priority_flag", U08(AnyValue)),
                 Field("schedule_delivery_time", COctet(timeSize)),
                 Field("validity_period", COctet(timeSize))], FirstContent(c, timeSize))
  {
    OneOctetFits(Field("esm_class", U08(AnyValue)), 0, "esm_class", c.esm, AnyValue);
    OneOctetFits(Field("protocol_id", U08(AnyValue)), c.esm, "protocol_id", c.protocol, AnyValue);
    OneOctetFits(Field("priority_flag", U08(AnyValue)), c.protocol, "priority_flag", c.priority, AnyValue);
    TextFits(Field("schedule_delivery_time", COctet(timeSize)), c.priority, "schedule_delivery_time", c.schedule, timeSize);
    TextFits(Field("validity_period", COctet(timeSize)), 0, "validity_period", c.validity, timeSize);
  }

  lemma SecondContentFits(c: Content)
    requires c.registered < 256 && c.replace < 256 && c.coding < 256 && c.defaultId < 256
    ensures Fit([Field("registered_delivery", U08(AnyValue)),
                 Field("replace_if_present_flag", U08(AnyValue)),
                 Field("data_coding", U08(AnyValue)),
                 Field("sm_default_msg_id", U08(AnyValue))], SecondContent(c))
  {
    OneOctetFits(Field("registered_delivery", U08(AnyValue)), 0, "registered_delivery", c.registered, AnyValue);
    OneOctetFits(Field("replace_if_present_flag", U08(AnyValue)), c.registered, "replace_if_present_flag", c.replace, AnyValue);
    OneOctetFits(Field("data_coding", U08(AnyValue)), c.replace, "data_coding", c.coding, AnyValue);
    OneOctetFits(Field("sm_default_msg_id", U08(AnyValue)), c.coding, "sm_default_msg_id", c.defaultId, AnyValue);
  }

  lemma MessageParts(timeSize: pos, table: TlvTable)
    ensures MessageFrame(timeSize, table)
            == [Field("esm_class", U08(AnyValue)),
                Field("protocol_id", U08(AnyValue)),
                Field("priority_flag", U08(AnyValue)),
                Field("schedule_delivery_time", COctet(timeSize)),
                Field("validity_period", COctet(timeSize))]
               + [Field("registered_delivery", U08(AnyValue)),
                  Field("replace_if_present_flag", U08(AnyValue)),
                  Field("data_coding", U08(AnyValue)),
                  Field("sm_default_msg_id", U08(AnyValue))]
               + [Field("sm_length", U08(AnyValue)), Field("short_message", Octet8(254))]
               + [Tail("tlv", table)]
  {
  }

  lemma ContentFits(command: int, c: Content, timeSize: pos, table: TlvTable, tlvs: seq<Tlv>)
    requires Uses(command, table) && Stored(ContentRows(c, timeSize, TlvEntries(command, tlvs)))
    ensures Fit(MessageFrame(timeSize, table), ContentRows(c, timeSize, TlvEntries(command, tlvs)))
  {
    var first, second, third := FirstContent(c, timeSize), SecondContent(c), ShortMessage(c.text);
    var last := [Listed("tlv", TlvEntries(command, tlvs))];
    StoredInTwo(first + second + third, last);
    StoredInTwo(first + second, third);
    StoredInTwo(first, second);
    FirstStored(c, timeSize);
    SecondStored(c);
    FirstContentFits(c, timeSize);
    SecondContentFits(c);
    TextOfMessageFit(c.text);
    TlvsFit(command, table, tlvs);
    MessageParts(timeSize, table);
    ContentJoined(first, second, third, last, MessageFrame(timeSize, table));
  }

  lemma ContentJoined(first: seq<Row>, second: seq<Row>, third: seq<Row>, last: seq<Row>, items: seq<Item>)
    requires |items| == 12 && Independent(items[5]) && Independent(items[9]) && Independent(items[11])
    requires Fit(items[..5], first) && Fit(items[5..9], second) && Fit(items[9..11], third) && Fit(items[11..], last)
    ensures Fit(items, first + second + third + last)
  {
    FitConcat(items[..5], first, items[5..9], second);
    assert items[..5] + items[5..9] == items[..9];
    FitConcat(items[..9], first + second, items[9..11], third);
    assert items[..9] + items[9..11] == items[..11];
    FitConcat(items[..11], first + second + third, items[11..], last);
    assert items[..11] + items[11..] == items;
  }

  // The commands

  /** The frame of the command is the one of the table. */
  ghost predicate Meets(m: Message) {
    Body(Id(m)).Some? && Fit(Body(Id(m)).value, Rows(m))
  }

  lemma BodyIs(m: Message, items: seq<Item>, rows: seq<Row>)
    requires Body(Id(m)) == Some(items) && Rows(m) == rows && Fit(items, rows)
    ensures Meets(m)
  {
  }

  function Credentials(m: Message): seq<Row>
    requires m.Bind?
  {
    [Text("system_id", m.systemId, 16), Text("password", m.password, 9), Text("system_type", m.systemType, 13),
     OneOctet("interface_version", m.version, m.command == 0x01 || m.version == 0x34)]
  }

  lemma CredentialsFit(m: Message, version: Check)
    requires m.Bind? && (m.command == 0x01 || m.version == 0x34 <==> Passes(version, m.version)) && Stored(Credentials(m))
    ensures Fit([Field("system_id", COctet(16)), Field("password", COctet(9)), Field("system_type", COctet(13)),
                 Field("interface_version", U08(version))], Credentials(m))
  {
    var rows := Credentials(m);
    assert rows == [rows[0], rows[1]] + [rows[2]] + [rows[3]];
    StoredInThree([rows[0], rows[1]], [rows[2]], [rows[3]]);
    TwoTextsFit("system_id", m.systemId, 16, "password", m.password, 9);
    TextFit("system_type", m.systemType, 13);
    OctetFit("interface_version", m.version, version);
    var a, b := [Field("system_id", COctet(16)), Field("password", COctet(9))], [Field("system_type", COctet(13))];
    var c := [Field("interface_version", U08(version))];
    ThreeParts(a, [rows[0], rows[1]], b, [rows[2]], c, [rows[3]]);
    assert [a[0], a[1], b[0], c[0]] == a + b + c;
  }

  lemma BindFits(m: Message)
    requires m.Bind? && Named(m) && Stored(Rows(m))
    ensures Meets(m)
  {
    var version := if m.command == 0x01 then AnyValue else InterfaceVersion;
    var first := Credentials(m);
    var second := Address("addr_ton", "addr_npi", "address_range", m.range, 41);
    StoredInTwo(first, second);
    CredentialsFit(m, version);
    PartyFit("addr_ton", "addr_npi", "address_range", m.range, 41);
    var items := [Field("system_id", COctet(16)), Field("password", COctet(9)), Field("system_type", COctet(13)),
                  Field("interface_version", U08(version))];
    var more := [Field("addr_ton", U08(Ton)), Field("addr_npi", U08(Npi)), Field("address_range", COctet(41))];
    FitConcat(items, first, more, second);
    assert BindFrame(version) == items + more;
  }

  lemma BindRespFits(m: Message)
    requires m.BindResp? && Named(m) && Stored(Rows(m))
    ensures Meets(m)
  {
    var first, second := [Text("system_id", m.systemId, 16)], [Listed("tlv", TlvEntries(m.command, m.tlvs))];
    assert Rows(m) == first + second;
    StoredInTwo(first, second);
    TextFit("system_id", m.systemId, 16);
    TlvsFit(m.command, BindRespTlv, m.tlvs);
    FitConcat([Field("system_id", COctet(16))], first, [Tail("tlv", BindRespTlv)], second);
    assert BIND_RESP_FRAME == [Field("system_id", COctet(16))] + [Tail("tlv", BindRespTlv)];
  }

  /** Service type and source address. */
  lemma SourceFits(service: seq<byte>, source: Party)
    requires Stored([Text("service_type", service, 6)] + SourceRows(source, 21))
    ensures Fit(SOURCE, [Text("service_type", service, 6)] + SourceRows(source, 21))
  {
    StoredInTwo([Text("service_type", service, 6)], SourceRows(source, 21));
    TextFit("service_type", service, 6);
    PartyFit("source_addr_ton", "source_addr_npi", "source_addr", source, 21);
    var more := [Field("source_addr_ton", U08(Ton)), Field("source_addr_npi", U08(Npi)), Field("source_addr", COctet(21))];
    FitConcat([Field("service_type", COctet(6))], [Text("service_type", service, 6)], more, SourceRows(source, 21));
    assert SOURCE == [Field("service_type", COctet(6))] + more;
  }

  lemma DestinationFits(dest: Party, size: pos)
    requires Stored(DestinationRows(dest, size))
    ensures Fit(Frames.Destination(size), DestinationRows(dest, size)) && Independent(Frames.Destination(size)[0])
  {
    PartyFit("dest_addr_ton", "dest_addr_npi", "destination_addr", dest, size);
  }

  lemma MessageIdAndSourceFit(messageId: seq<byte>, source: Party)
    requires Stored([Text("message_id", messageId, 65)] + SourceRows(source, 21))
    ensures Fit(MESSAGE_ID_AND_SOURCE, [Text("message_id", messageId, 65)] + SourceRows(source, 21))
    ensures Independent(MESSAGE_ID_AND_SOURCE[0])
  {
    StoredInTwo([Text("message_id", messageId, 65)], SourceRows(source, 21));
    TextFit("message_id", messageId, 65);
    PartyFit("source_addr_ton", "source_addr_npi", "source_addr", source, 21);
    var more := [Field("source_addr_ton", U08(Ton)), Field("source_addr_npi", U08(Npi)), Field("source_addr", COctet(21))];
    FitConcat([Field("message_id", COctet(65))], [Text("message_id", messageId, 65)], more, SourceRows(source, 21));
    assert SOURCE[1..] == more;
  }

  lemma ThreeParts(a: seq<Item>, ra: seq<Row>, b: seq<Item>, rb: seq<Row>, c: seq<Item>, rc: seq<Row>)
    requires Fit(a, ra) && Fit(b, rb) && Fit(c, rc) && b != [] && Independent(b[0]) && c != [] && Independent(c[0])
    ensures Fit(a + b + c, ra + rb + rc)
  {
    FitConcat(a, ra, b, rb);
    FitConcat(a + b, ra + rb, c, rc);
  }

  lemma StoredInThree(a: seq<Row>, b: seq<Row>, c: seq<Row>)
    ensures Stored(a + b + c) <==> Stored(a) && Stored(b) && Stored(c)
  {
    StoredInTwo(a + b, c);
    StoredInTwo(a, b);
  }

  lemma SubmitMultiRespFits(messageId: seq<byte>, failures: seq<Failure>)
    requires Stored([Text("message_id", messageId, 65)])
    requires Stored([OneOctet("no_unsuccess", |failures|, true), Listed("unsuccess_smes", FailureEntries(failures))])
    ensures Fit(MESSAGE_ID + [Field("no_unsuccess", U08(AnyValue)), Counted("unsuccess_smes", UdadRecord)],
                [Text("message_id", messageId, 65)]
                + [OneOctet("no_unsuccess", |failures|, true), Listed("unsuccess_smes", FailureEntries(failures))])
  {
    TextFit("message_id", messageId, 65);
    FailuresFit(failures);
    FitConcat(MESSAGE_ID, [Text("message_id", messageId, 65)],
              [Field("no_unsuccess", U08(AnyValue)), Counted("unsuccess_smes", UdadRecord)],
              [OneOctet("no_unsuccess", |failures|, true), Listed("unsuccess_smes", FailureEntries(failures))]);
  }

  lemma DataEndFits(esm: nat, registered: nat, coding: nat, tlvs: seq<Tlv>)
    requires Stored([OneOctet("esm_class", esm, true), OneOctet("registered_delivery", registered, true)])
    requires Stored([OneOctet("data_coding", coding, true)]) && Stored([Listed("tlv", TlvEntries(0x103, tlvs))])
    ensures Fit(DATA_FRAME, [OneOctet("esm_class", esm, true), OneOctet("registered_delivery", registered, true)]
                            + [OneOctet("data_coding", coding, true)] + [Listed("tlv", TlvEntries(0x103, tlvs))])
  {
    TwoOctetFields("esm_class", esm, "registered_delivery", registered);
    OctetFit("data_coding", coding, AnyValue);
    TlvsFit(0x103, DataSmTlv, tlvs);
    var a := [Field("esm_class", U08(AnyValue)), Field("registered_delivery", U08(AnyValue))];
    var b, c := [Field("data_coding", U08(AnyValue))], [Tail("tlv", DataSmTlv)];
    var first := [OneOctet("esm_class", esm, true), OneOctet("registered_delivery", registered, true)];
    var second := [OneOctet("data_coding", coding, true)];
    FitConcat(a, first, b, second);
    FitConcat(a + b, first + second, c, [Listed("tlv", TlvEntries(0x103, tlvs))]);
    assert DATA_FRAME == a + b + c;
  }

  lemma ReplacementFits(schedule: seq<byte>, validity: seq<byte>, registered: nat, defaultId: nat, text: seq<byte>)
    requires Stored([Text("schedule_delivery_time", schedule, 17), Text("validity_period", validity, 17)])
    requires Stored([OneOctet("registered_delivery", registered, true), OneOctet("sm_default_msg_id", defaultId, true)])
    requires Stored(ShortMessage(text))
    ensures Fit(REPLACEMENT,
                [Text("schedule_delivery_time", schedule, 17), Text("validity_period", validity, 17)]
                + [OneOctet("registered_delivery", registered, true), OneOctet("sm_default_msg_id", defaultId, true)]
                + ShortMessage(text))
  {
    TwoTextsFit("schedule_delivery_time", schedule, 17, "validity_period", validity, 17);
    TwoOctetFields("registered_delivery", registered, "sm_default_msg_id", defaultId);
    TextOfMessageFit(text);
    var a := [Field("schedule_delivery_time", COctet(17)), Field("validity_period", COctet(17))];
    var b := [Field("registered_delivery", U08(AnyValue)), Field("sm_default_msg_id", U08(AnyValue))];
    var c := [Field("sm_length", U08(AnyValue)), Field("short_message", Octet8(254))];
    var first := [Text("schedule_delivery_time", schedule, 17), Text("validity_period", validity, 17)];
    var second := [OneOctet("registered_delivery", registered, true), OneOctet("sm_default_msg_id", defaultId, true)];
    FitConcat(a, first, b, second);
    FitConcat(a + b, first + second, c, ShortMessage(text));
    assert REPLACEMENT == a + b + c;
  }

  lemma PartiesFit(one: (string, string, string), p: Party, two: (string, string, string), q: Party)
    requires Stored(Address(one.0, one.1, one.2, p, 65)) && Stored(Address(two.0, two.1, two.2, q, 65))
    ensures Fit([Field(one.0, U08(Ton)), Field(one.1, U08(Npi)), Field(one.2, COctet(65))]
                + [Field(two.0, U08(Ton)), Field(two.1, U08(Npi)), Field(two.2, COctet(65))],
                Address(one.0, one.1, one.2, p, 65) + Address(two.0, two.1, two.2, q, 65))
  {
    PartyFit(one.0, one.1, one.2, p, 65);
    PartyFit(two.0, two.1, two.2, q, 65);
    FitConcat([Field(one.0, U08(Ton)), Field(one.1, U08(Npi)), Field(one.2, COctet(65))], Address(one.0, one.1, one.2, p, 65),
              [Field(two.0, U08(Ton)), Field(two.1, U08(Npi)), Field(two.2, COctet(65))], Address(two.0, two.1, two.2, q, 65));
  }

  // Each command

  lemma SubmitBody(submit: bool)
    ensures Body(if submit then 0x04 else 0x05)
            == Some(SOURCE + Frames.Destination(21)
                    + if submit then MessageFrame(17, SubmitSmTlv) else MessageFrame(1, DeliverSmTlv))
  {
  }

  lemma SubmitMeets(m: Message)
    requires (m.SubmitSm? || m.DeliverSm?) && Stored(Rows(m))
    ensures Meets(m)
  {
    var command, timeSize := Id(m), if m.SubmitSm? then 17 else 1;
    var table := if m.SubmitSm? then SubmitSmTlv else DeliverSmTlv;
    var first, second := [Text("service_type", m.service, 6)] + SourceRows(m.source, 21), DestinationRows(m.dest, 21);
    var third := ContentRows(m.content, timeSize, TlvEntries(command, m.tlvs));
    StoredInThree(first, second, third);
    SourceFits(m.service, m.source);
    DestinationFits(m.dest, 21);
    ContentFits(command, m.content, timeSize, table, m.tlvs);
    ContentFirst(timeSize, table);
    ThreeParts(SOURCE, first, Frames.Destination(21), second, MessageFrame(timeSize, table), third);
    SubmitBody(m.SubmitSm?);
    BodyIs(m, SOURCE + Frames.Destination(21) + MessageFrame(timeSize, table), first + second + third);
  }

  lemma ContentFirst(timeSize: pos, table: TlvTable)
    ensures MessageFrame(timeSize, table) != [] && Independent(MessageFrame(timeSize, table)[0])
  {
  }

  lemma MultiBody()
    ensures Body(0x21)
            == Some(SOURCE + [Field("number_of_dests", U08(AnyValue)), Counted("dest_addr_def", DadRecord)]
                    + MessageFrame(17, SubmitMultiTlv))
  {
  }

  lemma MultiMeets(m: Message)
    requires m.SubmitMulti? && Stored(Rows(m))
    ensures Meets(m)
  {
    var first := [Text("service_type", m.service, 6)] + SourceRows(m.source, 21);
    var second := [OneOctet("number_of_dests", |m.dests|, true), Listed("dest_addr_def", DestEntries(m.dests))];
    var third := ContentRows(m.content, 17, TlvEntries(0x21, m.tlvs));
    var dests := [Field("number_of_dests", U08(AnyValue)), Counted("dest_addr_def", DadRecord)];
    StoredInThree(first, second, third);
    SourceFits(m.service, m.source);
    DestsFit(m.dests);
    ContentFits(0x21, m.content, 17, SubmitMultiTlv, m.tlvs);
    ContentFirst(17, SubmitMultiTlv);
    ThreeParts(SOURCE, first, dests, second, MessageFrame(17, SubmitMultiTlv), third);
    MultiBody();
    BodyIs(m, SOURCE + dests + MessageFrame(17, SubmitMultiTlv), first + second + third);
  }

  lemma MultiRespMeets(m: Message)
    requires m.SubmitMultiResp? && Stored(Rows(m))
    ensures Meets(m)
  {
    var first := [Text("message_id", m.messageId, 65)];
    var second := [OneOctet("no_unsuccess", |m.failures|, true), Listed("unsuccess_smes", FailureEntries(m.failures))];
    assert Rows(m) == first + second;
    StoredInTwo(first, second);
    SubmitMultiRespFits(m.messageId, m.failures);
  }

  lemma DataRows(m: Message)
    requires m.DataSm?
    ensures Rows(m) == [Text("service_type", m.service, 6)] + SourceRows(m.source, 21) + DestinationRows(m.dest, 65)
                       + ([OneOctet("esm_class", m.esm, true), OneOctet("registered_delivery", m.registered, true)]
                          + [OneOctet("data_coding", m.coding, true)] + [Listed("tlv", TlvEntries(0x103, m.tlvs))])
  {
    assert [OneOctet("esm_class", m.esm, true), OneOctet("registered_delivery", m.registered, true),
            OneOctet("data_coding", m.coding, true), Listed("tlv", TlvEntries(0x103, m.tlvs))]
           == [OneOctet("esm_class", m.esm, true), OneOctet("registered_delivery", m.registered, true)]
              + [OneOctet("data_coding", m.coding, true)] + [Listed("tlv", TlvEntries(0x103, m.tlvs))];
  }

  lemma DataMeets(m: Message)
    requires m.DataSm? && Stored(Rows(m))
    ensures Meets(m)
  {
    var first, second := [Text("service_type", m.service, 6)] + SourceRows(m.source, 21), DestinationRows(m.dest, 65);
    var third := [OneOctet("esm_class", m.esm, true), OneOctet("registered_delivery", m.registered, true)];
    var fourth, last := [OneOctet("data_coding", m.coding, true)], [Listed("tlv", TlvEntries(0x103, m.tlvs))];
    DataRows(m);
    StoredInTwo(first + second, third + fourth + last);
    StoredInTwo(first, second);
    StoredInTwo(third + fourth, last);
    StoredInTwo(third, fourth);
    SourceFits(m.service, m.source);
    DestinationFits(m.dest, 65);
    FitConcat(SOURCE, first, Frames.Destination(65), second);
    DataEndFits(m.esm, m.registered, m.coding, m.tlvs);
    FitConcat(SOURCE + Frames.Destination(65), first + second, DATA_FRAME, third + fourth + last);
    DataBody();
    BodyIs(m, SOURCE + Frames.Destination(65) + DATA_FRAME, first + second + (third + fourth + last));
  }

  lemma DataBody()
    ensures Body(0x103) == Some(SOURCE + Frames.Destination(65) + DATA_FRAME)
  {
  }

  lemma QueryRespMeets(m: Message)
    requires m.QueryResp? && Stored(Rows(m))
    ensures Meets(m)
  {
    var first := [Text("message_id", m.messageId, 65), Text("final_date", m.finalDate, 17)];
    var second := [OneOctet("message_state", m.state, true), OneOctet("error_code", m.error, true)];
    assert Rows(m) == first + second;
    StoredInTwo(first, second);
    TwoTextsFit("message_id", m.messageId, 65, "final_date", m.finalDate, 17);
    TwoOctetFields("message_state", m.state, "error_code", m.error);
    var a := [Field("message_id", COctet(65)), Field("final_date", COctet(17))];
    var b := [Field("message_state", U08(AnyValue)), Field("error_code", U08(AnyValue))];
    FitConcat(a, first, b, second);
    assert Body(0x8000_0003).value == a + b;
  }

  lemma CancelMeets(m: Message)
    requires m.CancelSm? && Stored(Rows(m))
    ensures Meets(m)
  {
    var first := [Text("service_type", m.service, 6)];
    var second := [Text("message_id", m.messageId, 65)] + SourceRows(m.source, 21);
    var third := DestinationRows(m.dest, 21);
    assert Rows(m) == first + second + third;
    StoredInTwo(first + second, third);
    StoredInTwo(first, second);
    TextFit("service_type", m.service, 6);
    MessageIdAndSourceFit(m.messageId, m.source);
    DestinationFits(m.dest, 21);
    var service := [Field("service_type", COctet(6))];
    FitConcat(service, first, MESSAGE_ID_AND_SOURCE, second);
    FitConcat(service + MESSAGE_ID_AND_SOURCE, first + second, Frames.Destination(21), third);
  }

  lemma ReplaceStored(m: Message)
    requires m.ReplaceSm? && Stored(Rows(m))
    ensures Stored([Text("message_id", m.messageId, 65)] + SourceRows(m.source, 21))
    ensures Stored([Text("schedule_delivery_time", m.schedule, 17), Text("validity_period", m.validity, 17)])
    ensures Stored([OneOctet("registered_delivery", m.registered, true), OneOctet("sm_default_msg_id", m.defaultId, true)])
    ensures Stored(ShortMessage(m.text))
  {
    var third := [Text("schedule_delivery_time", m.schedule, 17), Text("validity_period", m.validity, 17)];
    var fourth := [OneOctet("registered_delivery", m.registered, true), OneOctet("sm_default_msg_id", m.defaultId, true)];
    ReplaceRows(m);
    StoredInTwo([Text("message_id", m.messageId, 65)] + SourceRows(m.source, 21), third + fourth + ShortMessage(m.text));
    StoredInThree(third, fourth, ShortMessage(m.text));
  }

  lemma ReplaceBody()
    ensures Body(0x07) == Some(MESSAGE_ID_AND_SOURCE + REPLACEMENT) && Independent(REPLACEMENT[0])
  {
  }

  lemma ReplaceMeets(m: Message)
    requires m.ReplaceSm? && Stored(Rows(m))
    ensures Meets(m)
  {
    var first := [Text("message_id", m.messageId, 65)] + SourceRows(m.source, 21);
    var more := [Text("schedule_delivery_time", m.schedule, 17), Text("validity_period", m.validity, 17)]
                + [OneOctet("registered_delivery", m.registered, true), OneOctet("sm_default_msg_id", m.defaultId, true)]
                + ShortMessage(m.text);
    ReplaceStored(m);
    MessageIdAndSourceFit(m.messageId, m.source);
    ReplacementFits(m.schedule, m.validity, m.registered, m.defaultId, m.text);
    ReplaceBody();
    FitConcat(MESSAGE_ID_AND_SOURCE, first, REPLACEMENT, more);
    ReplaceRows(m);
    BodyIs(m, MESSAGE_ID_AND_SOURCE + REPLACEMENT, first + more);
  }

  lemma ReplaceRows(m: Message)
    requires m.ReplaceSm?
    ensures Rows(m) == [Text("message_id", m.messageId, 65)] + SourceRows(m.source, 21)
                       + ([Text("schedule_delivery_time", m.schedule, 17), Text("validity_period", m.validity, 17)]
                          + [OneOctet("registered_delivery", m.registered, true),
                             OneOctet("sm_default_msg_id", m.defaultId, true)]
                          + ShortMessage(m.text))
  {
    var third := [Text("schedule_delivery_time", m.schedule, 17), Text("validity_period", m.validity, 17)];
    var fourth := [OneOctet("registered_delivery", m.registered, true), OneOctet("sm_default_msg_id", m.defaultId, true)];
    assert [third[0], third[1], fourth[0], fourth[1]] == third + fourth;
    AppendTwo([Text("message_id", m.messageId, 65)] + SourceRows(m.source, 21), third, fourth, ShortMessage(m.text));
  }

  lemma AppendTwo<T>(a: seq<T>, b: seq<T>, c: seq<T>, d: seq<T>)
    ensures a + (b + c) + d == a + (b + c + d)
  {
  }

  lemma AlertMeets(m: Message)
    requires m.Alert? && Stored(Rows(m))
    ensures Meets(m)
  {
    var first, second := SourceRows(m.source, 65), Address("esme_addr_ton", "esme_addr_npi", "esme_addr", m.esme, 65);
    var last := [Listed("tlv", TlvEntries(0x102, m.tlvs))];
    StoredInTwo(first + second, last);
    StoredInTwo(first, second);
    PartiesFit(("source_addr_ton", "source_addr_npi", "source_addr"), m.source,
               ("esme_addr_ton", "esme_addr_npi", "esme_addr"), m.esme);
    TlvsFit(0x102, AlertNotificationTlv, m.tlvs);
    var a := [Field("source_addr_ton", U08(Ton)), Field("source_addr_npi", U08(Npi)), Field("source_addr", COctet(65))]
             + [Field("esme_addr_ton", U08(Ton)), Field("esme_addr_npi", U08(Npi)), Field("esme_addr", COctet(65))];
    FitConcat(a, first + second, [Tail("tlv", AlertNotificationTlv)], last);
    AlertBody();
    BodyIs(m, a + [Tail("tlv", AlertNotificationTlv)], first + second + last);
  }

  lemma AlertBody()
    ensures Body(0x102)
            == Some([Field("source_addr_ton", U08(Ton)), Field("source_addr_npi", U08(Npi)), Field("source_addr", COctet(65))]
                    + [Field("esme_addr_ton", U08(Ton)), Field("esme_addr_npi", U08(Npi)), Field("esme_addr", COctet(65))]
                    + [Tail("tlv", AlertNotificationTlv)])
  {
    assert Body(0x102).value
           == [Field("source_addr_ton", U08(Ton)), Field("source_addr_npi", U08(Npi)), Field("source_addr", COctet(65))]
              + [Field("esme_addr_ton", U08(Ton)), Field("esme_addr_npi", U08(Npi)), Field("esme_addr", COctet(65))]
              + [Tail("tlv", AlertNotificationTlv)];
  }

  lemma ShortMeets(m: Message)
    requires m.Outbind? || m.Bare? || m.MessageIdResp? || m.DeliverResp? || m.QuerySm?
    requires Named(m) && Stored(Rows(m))
    ensures Meets(m)
  {
    match m
    case Outbind(systemId, password) => TwoTextsFit("system_id", systemId, 16, "password", password, 9);
    case Bare(_) =>
    case MessageIdResp(_, messageId) => TextFit("message_id", messageId, 65);
    case DeliverResp(messageId) => TextFit("message_id", messageId, 1);
    case QuerySm(messageId, source) => MessageIdAndSourceFit(messageId, source);
  }

  /** Every frame is the one of the table. */
  lemma FramesMeet(m: Message)
    requires Named(m) && Stored(Rows(m))
    ensures Meets(m)
  {
    match m
    case Bind(_, _, _, _, _, _) => BindFits(m);
    case BindResp(_, _, _) => BindRespFits(m);
    case SubmitSm(_, _, _, _, _) => SubmitMeets(m);
    case DeliverSm(_, _, _, _, _) => SubmitMeets(m);
    case SubmitMulti(_, _, _, _, _) => MultiMeets(m);
    case SubmitMultiResp(_, _) => MultiRespMeets(m);
    case DataSm(_, _, _, _, _, _, _) => DataMeets(m);
    case QueryResp(_, _, _, _) => QueryRespMeets(m);
    case CancelSm(_, _, _, _) => CancelMeets(m);
    case ReplaceSm(_, _, _, _, _, _, _) => ReplaceMeets(m);
    case Alert(_, _, _) => AlertMeets(m);
    case _ => ShortMeets(m);
  }

  // What stands on the wire

  function Slots(rows: seq<Row>): Struct {
    seq(|rows|, i requires 0 <= i < |rows| => rows[i].slot)
  }

  function Arrived(rows: seq<Row>): Struct {
    seq(|rows|, i requires 0 <= i < |rows| => rows[i].arrives)
  }

  function Join(rows: seq<Row>): seq<byte> {
    if rows == [] then [] else rows[0].octets + Join(rows[1..])
  }

  /** smpp34_pack lets every field through. */
  predicate Written(rows: seq<Row>) {
    rows == [] || (rows[0].written && Written(rows[1..]))
  }

  /** smpp34_unpack lets every field through. */
  predicate TakenIn(rows: seq<Row>) {
    rows == [] || (rows[0].taken && TakenIn(rows[1..]))
  }

  /** A structure with its header; smpp34_pack does not look at the length that is in it. */
  function Whole(m: Message, length: nat, status: nat, number: nat): seq<Row>
    requires Named(m)
  {
    Header(Id(m), length, status, number) + Rows(m)
  }

  /** The octets of a PDU: its length, command, status and number, and then its fields. */
  function Pdu(m: Message, status: nat, number: nat): (o: seq<byte>)
    requires Named(m)
    ensures |o| == 16 + |Join(Rows(m))|
  {
    FourOctets(16 + |Join(Rows(m))|) + FourOctets(Id(m)) + FourOctets(status) + FourOctets(number) + Join(Rows(m))
  }

  lemma TokensAtEnd(items: seq<Item>, rows: seq<Row>)
    requires |items| == |rows|
    ensures var i := |rows|;
            TokensFit(Flatten(items, Slots(rows), i), Join(rows[i..]), Written(rows[i..]), TakenIn(rows[i..]))
  {
    assert rows[|rows|..] == [];
  }

  lemma {:induction false} TokensFrom(items: seq<Item>, rows: seq<Row>, i: nat)
    requires Fit(items, rows) && i <= |rows|
    ensures TokensFit(Flatten(items, Slots(rows), i), Join(rows[i..]), Written(rows[i..]), TakenIn(rows[i..]))
    decreases |rows| - i
  {
    if i == |rows| {
      TokensAtEnd(items, rows);
    } else {
      TokensFrom(items, rows, i + 1);
      TokensOfRow(items, rows, i);
    }
  }

  lemma JoinAt(rows: seq<Row>, i: nat)
    requires i < |rows|
    ensures Join(rows[i..]) == rows[i].octets + Join(rows[i + 1..])
    ensures Written(rows[i..]) == (rows[i].written && Written(rows[i + 1..]))
    ensures TakenIn(rows[i..]) == (rows[i].taken && TakenIn(rows[i + 1..]))
  {
    assert rows[i..][1..] == rows[i + 1..];
  }

  lemma FlattenAt(items: seq<Item>, rows: seq<Row>, i: nat)
    requires i < |rows| == |items|
    ensures Flatten(items, Slots(rows), i)
            == FlattenSlot(items[i], RowPrev(rows, i), rows[i].slot) + Flatten(items, Slots(rows), i + 1)
  {
  }

  lemma TokensOfRow(items: seq<Item>, rows: seq<Row>, i: nat)
    requires Fit(items, rows) && i < |rows|
    requires var more := rows[i + 1..];
             TokensFit(Flatten(items, Slots(rows), i + 1), Join(more), Written(more), TakenIn(more))
    ensures TokensFit(Flatten(items, Slots(rows), i), Join(rows[i..]), Written(rows[i..]), TakenIn(rows[i..]))
  {
    var row, ts := rows[i], FlattenSlot(items[i], RowPrev(rows, i), rows[i].slot);
    assert TokensFit(ts, row.octets, row.written, row.taken) by {
      assert RowFits(items[i], RowPrev(rows, i), row);
    }
    JoinAt(rows, i);
    FlattenAt(items, rows, i);
    TokensConcat(ts, row.octets, row.written, row.taken,
                 Flatten(items, Slots(rows), i + 1), Join(rows[i + 1..]), Written(rows[i + 1..]), TakenIn(rows[i + 1..]));
  }

  lemma RowsTyped(items: seq<Item>, rows: seq<Row>)
    requires Fit(items, rows)
    ensures StructTyped(items, Slots(rows)) && CountsMatch(items, Slots(rows))
    ensures KeptStruct(items, Slots(rows)) == Arrived(rows)
    ensures forall i | 0 <= i < |items| :: items[i].name == rows[i].name
  {
    var s := Slots(rows);
    forall i | 0 <= i < |s|
      ensures SlotTyped(items[i], PrevNum(s, i), s[i]) && CountMatches(items[i], PrevNum(s, i), s[i])
      ensures KeptSlot(items[i], s[i]) == rows[i].arrives && items[i].name == rows[i].name
    {
      assert RowFits(items[i], RowPrev(rows, i), rows[i]);
    }
  }

  lemma IdListed(m: Message)
    requires Named(m)
    ensures IsCommandId(Id(m)) && 0 <= Id(m) < 0x1_0000_0000
  {
  }

  lemma TwoWordsFit(one: string, m: nat, c: Check, two: string, n: nat, d: Check)
    requires m < 0x1_0000_0000 && n < 0x1_0000_0000
    ensures Fit([Field(one, U32(c)), Field(two, U32(d))], [Word(one, m, Passes(c, m)), Word(two, n, Passes(d, n))])
  {
    WordFits(Field(one, U32(c)), 0, one, m, c);
    WordFits(Field(two, U32(d)), m, two, n, d);
  }

  lemma HeaderFits(id: nat, length: nat, status: nat, number: nat)
    requires IsCommandId(id) && id < 0x1_0000_0000
    requires length < 0x1_0000_0000 && status < 0x1_0000_0000 && number < 0x1_0000_0000
    ensures Fit(HEADER, Header(id, length, status, number))
  {
    TwoWordsFit("command_length", length, AnyValue, "command_id", id, CommandId);
    TwoWordsFit("command_status", status, CommandStatus, "sequence_number", number, SequenceNumber);
    var h := Header(id, length, status, number);
    var a := [Field("command_length", U32(AnyValue)), Field("command_id", U32(CommandId))];
    var b := [Field("command_status", U32(CommandStatus)), Field("sequence_number", U32(SequenceNumber))];
    FitConcat(a, [h[0], h[1]], b, [h[2], h[3]]);
    assert HEADER == a + b && h == [h[0], h[1]] + [h[2], h[3]];
  }

  lemma BodyStarts(command: int)
    requires Body(command).Some?
    ensures Body(command).value == [] || Independent(Body(command).value[0])
  {
  }

  lemma WithHeader(id: nat, body: seq<Item>, rows: seq<Row>, length: nat, status: nat, number: nat)
    requires IsCommandId(id) && id < 0x1_0000_0000
    requires length < 0x1_0000_0000 && status < 0x1_0000_0000 && number < 0x1_0000_0000
    requires Fit(body, rows) && (body == [] || Independent(body[0]))
    ensures Fit(HEADER + body, Header(id, length, status, number) + rows)
  {
    HeaderFits(id, length, status, number);
    FitConcat(HEADER, Header(id, length, status, number), body, rows);
  }

  lemma FrameOfBody(command: int, body: seq<Item>)
    requires Body(command) == Some(body)
    ensures Frame(command) == Some(HEADER + body) && (body == [] || Independent(body[0]))
  {
    BodyStarts(command);
  }

  lemma WholeFits(m: Message, length: nat, status: nat, number: nat)
    requires Named(m) && Stored(Rows(m)) && length < 0x1_0000_0000 && status < 0x1_0000_0000 && number < 0x1_0000_0000
    ensures Frame(Id(m)).Some? && Fit(Frame(Id(m)).value, Whole(m, length, status, number))
  {
    IdListed(m);
    FramesMeet(m);
    var body := Body(Id(m)).value;
    FrameOfBody(Id(m), body);
    WithHeader(Id(m), body, Rows(m), length, status, number);
  }

  /** Under these names the fields stand in the frame. */
  lemma FramesNamed(m: Message, length: nat, status: nat, number: nat)
    requires Named(m) && Stored(Rows(m)) && length < 0x1_0000_0000 && status < 0x1_0000_0000 && number < 0x1_0000_0000
    ensures var items, rows := Frame(Id(m)), Whole(m, length, status, number);
            items.Some? && |items.value| == |rows| && forall i | 0 <= i < |rows| :: items.value[i].name == rows[i].name
  {
    WholeFits(m, length, status, number);
    RowsTyped(Frame(Id(m)).value, Whole(m, length, status, number));
  }

  lemma JoinCons(row: Row, rows: seq<Row>)
    ensures Join([row] + rows) == row.octets + Join(rows)
    ensures Written([row] + rows) == (row.written && Written(rows))
    ensures TakenIn([row] + rows) == (row.taken && TakenIn(rows))
  {
    assert ([row] + rows)[1..] == rows;
  }

  lemma HeaderJoined(id: nat, length: nat, status: nat, number: nat, rows: seq<Row>)
    ensures var all := Header(id, length, status, number) + rows;
            && Join(all) == FourOctets(length) + (FourOctets(id) + (FourOctets(status) + (FourOctets(number) + Join(rows))))
            && (Written(all) <==> IsCommandStatus(status) && number > 0 && Written(rows))
            && (TakenIn(all) <==> IsCommandStatus(status) && number > 0 && TakenIn(rows))
  {
    var h := Header(id, length, status, number);
    JoinCons(h[3], rows);
    JoinCons(h[2], [h[3]] + rows);
    JoinCons(h[1], [h[2]] + ([h[3]] + rows));
    JoinCons(h[0], [h[1]] + ([h[2]] + ([h[3]] + rows)));
    FiveParts([h[0]], [h[1]], [h[2]], [h[3]], rows);
    assert h == [h[0]] + [h[1]] + [h[2]] + [h[3]];
  }

  lemma PduJoined(m: Message, length: nat, status: nat, number: nat)
    requires Named(m)
    ensures Join(Whole(m, length, status, number))
            == FourOctets(length) + (FourOctets(Id(m)) + (FourOctets(status) + (FourOctets(number) + Join(Rows(m)))))
    ensures |Join(Whole(m, length, status, number))| == |Pdu(m, status, number)|
    ensures Pdu(m, status, number)
            == FourOctets(|Pdu(m, status, number)|) + Join(Whole(m, length, status, number))[4..]
    ensures length == |Pdu(m, status, number)| ==> Join(Whole(m, length, status, number)) == Pdu(m, status, number)
  {
    IdListed(m);
    HeaderJoined(Id(m), length, status, number, Rows(m));
    FiveParts(FourOctets(|Pdu(m, status, number)|), FourOctets(Id(m)), FourOctets(status), FourOctets(number), Join(Rows(m)));
    Appended(FourOctets(length), FourOctets(Id(m)) + (FourOctets(status) + (FourOctets(number) + Join(Rows(m)))));
  }

  lemma FiveParts<T>(a: seq<T>, b: seq<T>, c: seq<T>, d: seq<T>, e: seq<T>)
    ensures a + b + c + d + e == a + (b + (c + (d + e)))
  {
  }

  /**
   * Every structure of every command is packed into the octets of the table, for any room with one octet to spare, and
   * refused exactly when one of its values is outside the limits there.
   */
  lemma PackedAsLaidOut(m: Message, length: nat, status: nat, number: nat, size: int)
    requires Named(m) && Stored(Rows(m)) && length < 0x1_0000_0000 && status < 0x1_0000_0000 && number < 0x1_0000_0000
    requires size > |Pdu(m, status, number)|
    ensures var s := Slots(Whole(m, length, status, number));
            && CommandTyped(Id(m), s)
            && Packed(Id(m), s, size)
               == if IsCommandStatus(status) && number > 0 && Written(Rows(m)) then Some(Pdu(m, status, number)) else None
  {
    var rows := Whole(m, length, status, number);
    TokensOfWhole(m, length, status, number);
    PduJoined(m, length, status, number);
    var valid := IsCommandStatus(status) && number > 0 && Written(Rows(m));
    PackedFrom(Id(m), Frame(Id(m)).value, Slots(rows), size, Join(rows), valid);
    BigEndianOctets(|Pdu(m, status, number)|);
  }

  lemma TokensOfWhole(m: Message, length: nat, status: nat, number: nat)
    requires Named(m) && Stored(Rows(m)) && length < 0x1_0000_0000 && status < 0x1_0000_0000 && number < 0x1_0000_0000
    ensures Frame(Id(m)).Some?
    ensures var items, rows := Frame(Id(m)).value, Whole(m, length, status, number);
            && |items| == |rows| && StructTyped(items, Slots(rows)) && CountsMatch(items, Slots(rows))
            && KeptStruct(items, Slots(rows)) == Arrived(rows)
            && TokensFit(Flatten(items, Slots(rows), 0), Join(rows),
                         IsCommandStatus(status) && number > 0 && Written(Rows(m)),
                         IsCommandStatus(status) && number > 0 && TakenIn(Rows(m)))
  {
    var rows := Whole(m, length, status, number);
    WholeFits(m, length, status, number);
    var items := Frame(Id(m)).value;
    RowsTyped(items, rows);
    TokensFrom(items, rows, 0);
    TakeAll(rows);
    IdListed(m);
    HeaderJoined(Id(m), length, status, number, Rows(m));
  }

  lemma PackedFrom(command: int, items: seq<Item>, s: Struct, size: int, o: seq<byte>, written: bool)
    requires Frame(command) == Some(items) && StructTyped(items, s) && AllTyped(Flatten(items, s, 0))
    requires forall t | t in Flatten(items, s, 0) :: Fitting(t)
    requires EncodeAll(Flatten(items, s, 0)) == o && (AllAccepted(Flatten(items, s, 0)) <==> written) && size > |o| >= 4
    ensures CommandTyped(command, s) && Packed(command, s, size) == if written then Some(WithLength(o)) else None
  {
    var ts := Flatten(items, s, 0);
    if written { EnoughRoom(ts, size); } else if PackTokens(ts, size).Some? { PackedIsEncoded(ts, size); }
  }

  /**
   * The octets of the table, with anything behind them, are unpacked into the values that they stand for, strings cut to
   * their fields and lists in the opposite order, and refused exactly when one is outside the limits there.
   */
  lemma UnpackedAsLaidOut(m: Message, status: nat, number: nat, rest: seq<byte>)
    requires Named(m) && Stored(Rows(m)) && status < 0x1_0000_0000 && number < 0x1_0000_0000
    requires |Pdu(m, status, number)| < 0x1_0000_0000
    ensures Unpacked(Id(m), Pdu(m, status, number) + rest)
            == if IsCommandStatus(status) && number > 0 && TakenIn(Rows(m))
               then Some(Arrived(Whole(m, |Pdu(m, status, number)|, status, number))) else None
  {
    var o := Pdu(m, status, number);
    var rows := Whole(m, |o|, status, number);
    TokensOfWhole(m, |o|, status, number);
    TakeAll(o);
    PduJoined(m, |o|, status, number);
    assert CommandLength(Slots(rows)) == |o|;
    AnyEncoding(Id(m), Slots(rows), o, rest);
  }

  lemma JoinOfThree(a: Row, b: Row, c: Row)
    ensures Join([a, b, c]) == a.octets + b.octets + c.octets
  {
    JoinCons(c, []);
    JoinCons(b, [c] + []);
    JoinCons(a, [b] + ([c] + []));
    assert [a, b, c] == [a] + ([b] + ([c] + []));
    JoinThree(a.octets, b.octets, c.octets);
  }

  lemma {:induction false} JoinConcat(a: seq<Row>, b: seq<Row>)
    ensures Join(a + b) == Join(a) + Join(b)
  {
    if a == [] {
      AppendNothing(b);
    } else {
      AppendedRest(a, b);
      JoinConcat(a[1..], b);
      AppendAssociates(a[0].octets, Join(a[1..]), Join(b));
    }
  }

  lemma CredentialsJoined(m: Message)
    requires m.Bind?
    ensures var c := Credentials(m); Join(c) == c[0].octets + c[1].octets + c[2].octets + c[3].octets
  {
    var c := Credentials(m);
    assert c == [c[0], c[1], c[2]] + [c[3]];
    JoinOfThree(c[0], c[1], c[2]);
    JoinConcat([c[0], c[1], c[2]], [c[3]]);
    JoinCons(c[3], []);
    AppendNothing([c[3]]);
  }

  lemma RangeJoined(p: Party)
    requires p.ton < 256 && p.npi < 256 && |p.addr| < 41
    ensures Join(Address("addr_ton", "addr_npi", "address_range", p, 41)) == [p.ton] + [p.npi] + (p.addr + [0])
  {
    var rows := Address("addr_ton", "addr_npi", "address_range", p, 41);
    JoinOfThree(rows[0], rows[1], rows[2]);
  }

  lemma BindBody(m: Message)
    requires m.Bind? && m.range.ton < 256 && m.range.npi < 256 && m.version < 256
    requires |m.systemId| < 16 && |m.password| < 9 && |m.systemType| < 13 && |m.range.addr| < 41
    ensures Join(Rows(m)) == m.systemId + [0] + m.password + [0] + m.systemType + [0]
                             + [m.version, m.range.ton, m.range.npi] + m.range.addr + [0]
  {
    JoinConcat(Credentials(m), Address("addr_ton", "addr_npi", "address_range", m.range, 41));
    CredentialsJoined(m);
    RangeJoined(m.range);
    BindJoined(m.systemId, m.password, m.systemType, m.version, m.range.ton, m.range.npi, m.range.addr);
  }

  lemma SmallCommand(n: nat)
    requires n < 256
    ensures FourOctets(n) == [0, 0, 0, n]
  {
  }

  /** A bind on the wire. */
  lemma BindOctets(m: Message, status: nat, number: nat)
    requires m.Bind? && Named(m) && m.range.ton < 256 && m.range.npi < 256 && m.version < 256
    requires |m.systemId| < 16 && |m.password| < 9 && |m.systemType| < 13 && |m.range.addr| < 41
    ensures var o := Pdu(m, status, number);
            o == FourOctets(|o|) + [0, 0, 0, m.command] + FourOctets(status) + FourOctets(number)
                 + (m.systemId + [0] + m.password + [0] + m.systemType + [0] + [m.version, m.range.ton, m.range.npi]
                    + m.range.addr + [0])
  {
    BindBody(m);
    SmallCommand(m.command);
  }

  lemma BindJoined(a: seq<byte>, b: seq<byte>, c: seq<byte>, version: byte, ton: byte, npi: byte, d: seq<byte>)
    ensures (a + [0]) + (b + [0]) + (c + [0]) + [version] + ([ton] + [npi] + (d + [0]))
            == a + [0] + b + [0] + c + [0] + [version, ton, npi] + d + [0]
  {
  }

  /** The 48 statuses. */
  lemma StatusesListed(n: int)
    ensures IsCommandStatus(n)
            <==> n in {0x00, 0x01, 0x02, 0x03, 0x04, 0x05, 0x06, 0x07, 0x08, 0x0A, 0x0B, 0x0C, 0x0D, 0x0E, 0x0F, 0x11,
                       0x13, 0x14, 0x15, 0x33, 0x34, 0x40, 0x42, 0x43, 0x44, 0x45, 0x48, 0x49, 0x50, 0x51, 0x53, 0x54,
                       0x55, 0x58, 0x61, 0x62, 0x63, 0x64, 0x65, 0x66, 0x67, 0xC0, 0xC1, 0xC2, 0xC3, 0xC4, 0xFE, 0xFF}
  {
  }

  /** No other command is known. */
  lemma OtherCommandsRefused(command: int, s: Struct, size: int, buf: seq<byte>)
    requires command !in {0x8000_0000, 0x01, 0x8000_0001, 0x02, 0x8000_0002, 0x03, 0x8000_0003, 0x04, 0x8000_0004, 0x05,
                          0x8000_0005, 0x06, 0x8000_0006, 0x07, 0x8000_0007, 0x08, 0x8000_0008, 0x09, 0x8000_0009, 0x0B,
                          0x15, 0x8000_0015, 0x21, 0x8000_0021, 0x102, 0x103, 0x8000_0103}
    ensures CommandTyped(command, s) && Packed(command, s, size) == None && Unpacked(command, buf) == None
  {
  }
}
