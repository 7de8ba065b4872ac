/** The field validators of smpp34_params.c and the id lists of def_list. */
module Params {

  const GENERIC_NACK := 0x80000000
  const BIND_RECEIVER := 0x00000001
  const BIND_RECEIVER_RESP := 0x80000001
  const BIND_TRANSMITTER := 0x00000002
  const BIND_TRANSMITTER_RESP := 0x80000002
  const QUERY_SM := 0x00000003
  const QUERY_SM_RESP := 0x80000003
  const SUBMIT_SM := 0x00000004
  const SUBMIT_SM_RESP := 0x80000004
  const DELIVER_SM := 0x00000005
  const DELIVER_SM_RESP := 0x80000005
  const UNBIND := 0x00000006
  const UNBIND_RESP := 0x80000006
  const REPLACE_SM := 0x00000007
  const REPLACE_SM_RESP := 0x80000007
  const CANCEL_SM := 0x00000008
  const CANCEL_SM_RESP := 0x80000008
  const BIND_TRANSCEIVER := 0x00000009
  const BIND_TRANSCEIVER_RESP := 0x80000009
  const OUTBIND := 0x0000000B
  const ENQUIRE_LINK := 0x00000015
  const ENQUIRE_LINK_RESP := 0x80000015
  const SUBMIT_MULTI := 0x00000021
  const SUBMIT_MULTI_RESP := 0x80000021
  const ALERT_NOTIFICATION := 0x00000102
  const DATA_SM := 0x00000103
  const DATA_SM_RESP := 0x80000103

  /** Which validator a field of a frame names. The valueDec validators reject nothing. */
  datatype Check =
    | AnyValue
    | CommandId
    | CommandStatus
    | SequenceNumber
    | InterfaceVersion
    | Ton
    | Npi
    | DestFlag

  predicate IsCommandId(n: int) {
    n in {GENERIC_NACK, BIND_RECEIVER, BIND_RECEIVER_RESP, BIND_TRANSMITTER, BIND_TRANSMITTER_RESP,
          QUERY_SM, QUERY_SM_RESP, SUBMIT_SM, SUBMIT_SM_RESP, DELIVER_SM, DELIVER_SM_RESP,
          UNBIND, UNBIND_RESP, REPLACE_SM, REPLACE_SM_RESP, CANCEL_SM, CANCEL_SM_RESP,
          BIND_TRANSCEIVER, BIND_TRANSCEIVER_RESP, OUTBIND, ENQUIRE_LINK, ENQUIRE_LINK_RESP,
          SUBMIT_MULTI, SUBMIT_MULTI_RESP, ALERT_NOTIFICATION, DATA_SM, DATA_SM_RESP}
  }

  predicate IsCommandStatus(n: int) {
    || 0x00 <= n <= 0x08
    || 0x0A <= n <= 0x0F
    || n == 0x11
    || 0x13 <= n <= 0x15
    || n in {0x33, 0x34, 0x40}
    || 0x42 <= n <= 0x45
    || n in {0x48, 0x49, 0x50, 0x51}
    || 0x53 <= n <= 0x55
    || n == 0x58
    || 0x61 <= n <= 0x67
    || 0xC0 <= n <= 0xC4
    || n in {0xFE, 0xFF}
  }

  /** A validator passes when the text it prints is not empty. */
  predicate Passes(c: Check, n: int) {
    match c
    case AnyValue => true
    case CommandId => IsCommandId(n)
    case CommandStatus => IsCommandStatus(n)
    case SequenceNumber => n > 0
    case InterfaceVersion => n == 0x34
    case Ton => 0 <= n <= 6
    case Npi => n in {0, 1, 3, 4, 6, 8, 9, 10, 14, 18}
    case DestFlag => n == 1 || n == 2
  }
}
