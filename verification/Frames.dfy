/** The frame, TLV, DAD and UDAD schemas that both directions of the codec expand. */
module Frames {
  import opened Bytes
  import opened Params

  type pos = n: int | 0 < n witness 1

  /** A single field: one macro of the schema language. */
  datatype Kind =
    | U32(check: Check)
    | U16(check: Check)
    | U08(check: Check)
    | COctet(size: pos)  // NUL-terminated string, NUL included in size
    | Octet8(limit: nat)  // octets whose number is the field before
    | Octet16(limit: nat) // octets whose number is the field before

  /** The alternatives of the record lists a PDU can carry. */
  datatype RecordKind = TlvRecord(table: TlvTable) | DadRecord | UdadRecord

  datatype TlvTable =
    | AlertNotificationTlv
    | BindRespTlv
    | DataSmTlv
    | DeliverSmTlv
    | SubmitMultiTlv
    | SubmitSmTlv

  /** An entry of a frame: a field, a list bounded by a count, or the TLV tail. */
  datatype Item =
    | Field(name: string, kind: Kind)
    | Counted(name: string, record: RecordKind) // as many records as the field before says
    | Tail(name: string, table: TlvTable)       // records up to command_length

  /** What a field holds. A string is its octets before the NUL. */
  datatype Value = Num(n: nat) | Octets(b: seq<byte>)

  type Record = seq<Value>

  datatype Slot = Leaf(v: Value) | List(records: seq<Record>)

  type Struct = seq<Slot>

  // Tags with a rule of their own in some .tlv file
  const TLVID_dest_telematics_id := 0x0008
  const TLVID_qos_time_to_live := 0x0017
  const TLVID_receipted_message_id := 0x001E
  const TLVID_source_subaddress := 0x0202
  const TLVID_dest_subaddress := 0x0203
  const TLVID_user_message_reference := 0x0204
  const TLVID_source_port := 0x020A
  const TLVID_destination_port := 0x020B
  const TLVID_sar_msg_ref_num := 0x020C
  const TLVID_sar_total_segments := 0x020E
  const TLVID_sar_segment_seqnum := 0x020F
  const TLVID_sc_interface_version := 0x0210
  const TLVID_callback_num_atag := 0x0303
  const TLVID_callback_num := 0x0381
  const TLVID_ms_availability_status := 0x0422
  const TLVID_network_error_code := 0x0423
  const TLVID_message_payload := 0x0424
  const TLVID_more_messages_to_send := 0x0426
  const TLVID_ussd_service_op := 0x0501
  const TLVID_sms_signal := 0x1203
  const TLVID_alert_on_message_delivery := 0x130C
  const TLVID_its_session_info := 0x1383

  /** The value grammar a tag selects in each .tlv file. */
  function TlvValueKind(table: TlvTable, tag: nat): Kind {
    match table
    case AlertNotificationTlv =>
      if tag == TLVID_ms_availability_status then U08(AnyValue) else Octet16(1024)
    case BindRespTlv =>
      if tag == TLVID_sc_interface_version then U08(AnyValue) else Octet16(1024)
    case DataSmTlv =>
      if tag in {TLVID_source_port, TLVID_destination_port, TLVID_dest_telematics_id, TLVID_sar_msg_ref_num,
                 TLVID_user_message_reference, TLVID_sms_signal, TLVID_its_session_info} then U16(AnyValue)
      else if tag == TLVID_qos_time_to_live then U32(AnyValue)
      else if tag in {0x0005, 0x0006, 0x0007, 0x000D, 0x000E, 0x000F, 0x0010, 0x0019, 0x0030, 0x0201, 0x0205,
                      0x020D, 0x020E, 0x020F, 0x0302, 0x0304, 0x0421, 0x0426, 0x0427, 0x1201, 0x1204, 0x1380}
      then U08(AnyValue)
      else if tag == TLVID_receipted_message_id then Octet16(65)
      else if tag == TLVID_network_error_code then Octet16(3)
      else if tag == TLVID_callback_num then Octet16(19)
      else if tag == TLVID_callback_num_atag then Octet16(65)
      else if tag == TLVID_source_subaddress || tag == TLVID_dest_subaddress then Octet16(23)
      else if tag == TLVID_alert_on_message_delivery then Octet16(0)
      else Octet16(1024)
    case DeliverSmTlv =>
      if tag in {TLVID_user_message_reference, TLVID_source_port, TLVID_destination_port, TLVID_sar_msg_ref_num,
                 TLVID_its_session_info} then U16(AnyValue)
      else if tag in {0x000E, 0x0019, 0x0201, 0x0205, 0x020D, 0x020E, 0x020F, 0x0421, 0x0427} then U08(AnyValue)
      else if tag == TLVID_receipted_message_id then Octet16(65)
      else if tag == TLVID_network_error_code then Octet16(3)
      else if tag == TLVID_callback_num then Octet16(19)
      else if tag == TLVID_source_subaddress || tag == TLVID_dest_subaddress then Octet16(23)
      else Octet16(1024)
    case SubmitMultiTlv => SubmitValueKind(tag)
    case SubmitSmTlv => SubmitValueKind(tag)
  }

  /** submit_sm.tlv and submit_multi.tlv select the same kind for every tag. */
  function SubmitValueKind(tag: nat): Kind {
    if tag in {TLVID_user_message_reference, TLVID_source_port, TLVID_destination_port, TLVID_sar_msg_ref_num,
               TLVID_sms_signal, TLVID_its_session_info} then U16(AnyValue)
    else if tag in {0x0005, 0x000D, 0x0019, 0x0030, 0x0201, 0x0205, 0x020D, 0x020E, 0x020F, 0x0302, 0x0304,
                    0x0426, 0x1201, 0x1204, 0x1380} then U08(AnyValue)
    else if tag == TLVID_callback_num then Octet16(19)
    else if tag == TLVID_callback_num_atag then Octet16(65)
    else if tag == TLVID_source_subaddress || tag == TLVID_dest_subaddress then Octet16(23)
    else if tag == TLVID_alert_on_message_delivery then Octet16(0)
    else if tag == TLVID_ussd_service_op then Octet16(1)
    else Octet16(1024)
  }

  /** The number held by the last value, or 0: what a length-prefixed field reads. */
  function LastNum(vals: Record): nat {
    if vals != [] && vals[|vals| - 1].Num? then vals[|vals| - 1].n else 0
  }

  /** The field that follows the values vals of a record; None when the record is complete. */
  function RecordNext(r: RecordKind, vals: Record): (k: Option<Kind>)
    ensures k.Some? ==> |vals| < 4
  {
    match r
    case TlvRecord(table) =>
      if |vals| < 2 then Some(U16(AnyValue))
      else if |vals| == 2 then Some(TlvValueKind(table, if vals[0].Num? then vals[0].n else 0))
      else None
    case DadRecord =>
      if |vals| == 0 then Some(U08(DestFlag))
      else if vals[0] == Num(1) then
        (if |vals| == 1 then Some(U08(Ton))
         else if |vals| == 2 then Some(U08(Npi))
         else if |vals| == 3 then Some(COctet(21))
         else None)
      else if vals[0] == Num(2) then
        (if |vals| == 1 then Some(COctet(21)) else None)
      else None
    case UdadRecord =>
      if |vals| == 0 then Some(U08(Ton))
      else if |vals| == 1 then Some(U08(Npi))
      else if |vals| == 2 then Some(COctet(21))
      else if |vals| == 3 then Some(U32(AnyValue))
      else None
  }

  const HEADER: seq<Item> := [
    Field("command_length", U32(AnyValue)),
    Field("command_id", U32(CommandId)),
    Field("command_status", U32(CommandStatus)),
    Field("sequence_number", U32(SequenceNumber))]

  function BindFrame(version: Check): seq<Item> {
    [Field("system_id", COctet(16)),
     Field("password", COctet(9)),
     Field("system_type", COctet(13)),
     Field("interface_version", U08(version)),
     Field("addr_ton", U08(Ton)),
     Field("addr_npi", U08(Npi)),
     Field("address_range", COctet(41))]
  }

  const BIND_RESP_FRAME: seq<Item> := [Field("system_id", COctet(16)), Tail("tlv", BindRespTlv)]

  /** Service type and source address, common to the message commands. */
  const SOURCE: seq<Item> := [
    Field("service_type", COctet(6)),
    Field("source_addr_ton", U08(Ton)),
    Field("source_addr_npi", U08(Npi)),
    Field("source_addr", COctet(21))]

  function Destination(size: pos): seq<Item> {
    [Field("dest_addr_ton", U08(Ton)),
     Field("dest_addr_npi", U08(Npi)),
     Field("destination_addr", COctet(size))]
  }

  function MessageFrame(timeSize: pos, table: TlvTable): seq<Item> {
    [Field("esm_class", U08(AnyValue)),
     Field("protocol_id", U08(AnyValue)),
     Field("priority_flag", U08(AnyValue)),
     Field("schedule_delivery_time", COctet(timeSize)),
     Field("validity_period", COctet(timeSize)),
     Field("registered_delivery", U08(AnyValue)),
     Field("replace_if_present_flag", U08(AnyValue)),
     Field("data_coding", U08(AnyValue)),
     Field("sm_default_msg_id", U08(AnyValue)),
     Field("sm_length", U08(AnyValue)),
     Field("short_message", Octet8(254)),
     Tail("tlv", table)]
  }

  const MESSAGE_ID: seq<Item> := [Field("message_id", COctet(65))]

  const MESSAGE_ID_AND_SOURCE: seq<Item> := MESSAGE_ID + SOURCE[1..]

  const DATA_FRAME: seq<Item> := [
    Field("esm_class", U08(AnyValue)),
    Field("registered_delivery", U08(AnyValue)),
    Field("data_coding", U08(AnyValue)),
    Tail("tlv", DataSmTlv)]

  const REPLACEMENT: seq<Item> := [
    Field("schedule_delivery_time", COctet(17)),
    Field("validity_period", COctet(17)),
    Field("registered_delivery", U08(AnyValue)),
    Field("sm_default_msg_id", U08(AnyValue)),
    Field("sm_length", U08(AnyValue)),
    Field("short_message", Octet8(254))]

  /** The body of each command: the dispatch of smpp34_protocol.def. */
  function Body(command: int): Option<seq<Item>> {
    if command == BIND_TRANSMITTER || command == BIND_TRANSCEIVER then Some(BindFrame(InterfaceVersion))
    else if command == BIND_RECEIVER then Some(BindFrame(AnyValue))
    else if command in {BIND_TRANSMITTER_RESP, BIND_RECEIVER_RESP, BIND_TRANSCEIVER_RESP} then Some(BIND_RESP_FRAME)
    else if command == OUTBIND then Some([Field("system_id", COctet(16)), Field("password", COctet(9))])
    else if command in {UNBIND, UNBIND_RESP, GENERIC_NACK, CANCEL_SM_RESP, REPLACE_SM_RESP, ENQUIRE_LINK,
                        ENQUIRE_LINK_RESP} then Some([])
    else if command == SUBMIT_SM then Some(SOURCE + Destination(21) + MessageFrame(17, SubmitSmTlv))
    else if command == SUBMIT_SM_RESP then Some(MESSAGE_ID)
    else if command == SUBMIT_MULTI then
      Some(SOURCE + [Field("number_of_dests", U08(AnyValue)), Counted("dest_addr_def", DadRecord)]
           + MessageFrame(17, SubmitMultiTlv))
    else if command == SUBMIT_MULTI_RESP then
      Some(MESSAGE_ID + [Field("no_unsuccess", U08(AnyValue)), Counted("unsuccess_smes", UdadRecord)])
    else if command == DELIVER_SM then Some(SOURCE + Destination(21) + MessageFrame(1, DeliverSmTlv))
    else if command == DELIVER_SM_RESP then Some([Field("message_id", COctet(1))])
    else if command == DATA_SM then
      Some(SOURCE + Destination(65) + DATA_FRAME)
    else if command == DATA_SM_RESP then Some(MESSAGE_ID)
    else if command == QUERY_SM then Some(MESSAGE_ID_AND_SOURCE)
    else if command == QUERY_SM_RESP then
      Some(MESSAGE_ID
           + [Field("final_date", COctet(17)), Field("message_state", U08(AnyValue)), Field("error_code", U08(AnyValue))])
    else if command == CANCEL_SM then
      Some([Field("service_type", COctet(6))] + MESSAGE_ID_AND_SOURCE + Destination(21))
    else if command == REPLACE_SM then
      Some(MESSAGE_ID_AND_SOURCE + REPLACEMENT)
    else if command == ALERT_NOTIFICATION then
      Some([Field("source_addr_ton", U08(Ton)),
            Field("source_addr_npi", U08(Npi)),
            Field("source_addr", COctet(65)),
            Field("esme_addr_ton", U08(Ton)),
            Field("esme_addr_npi", U08(Npi)),
            Field("esme_addr", COctet(65)),
            Tail("tlv", AlertNotificationTlv)])
    else None
  }

  /** The whole frame of a command; None for an id that smpp34_protocol.def does not list. */
  function Frame(command: int): Option<seq<Item>> {
    match Body(command)
    case None => None
    case Some(body) => Some(HEADER + body)
  }
}
