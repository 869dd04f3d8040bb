/**
  The protocol constants of the companion-radio serial protocol: frame
  markers, command and response identifiers, device error codes, text
  types, application versions and advert types.
 */
module Protocol {

  import opened Bytes

  // Frame markers: inbound (device to host) and outbound (host to device).
  const FRAME_IN: uint8 := 0x3e
  const FRAME_OUT: uint8 := 0x3c

  // Command identifiers, the first byte of an outbound payload.
  const CMD_APP_START: uint8 := 1
  const CMD_SEND_TXT_MSG: uint8 := 2
  const CMD_SEND_CHAN_TXT_MSG: uint8 := 3
  const CMD_DEVICE_QUERY: uint8 := 22

  // Response codes, the first byte of an inbound payload.
  const RESP_OK: uint8 := 0
  const RESP_ERROR: uint8 := 1
  const RESP_SELF_INFO: uint8 := 5
  const RESP_SENT: uint8 := 6
  const RESP_DEVICE_INFO: uint8 := 13

  // Application-level error codes the device reports.
  const ERROR_UNSUPPORTED_CMD: uint8 := 1
  const ERROR_NOT_FOUND: uint8 := 2
  const ERROR_TABLE_FULL: uint8 := 3
  const ERROR_BAD_STATE: uint8 := 4
  const ERROR_FILE_IO: uint8 := 5
  const ERROR_ILLEGAL_ARG: uint8 := 6

  // Text types of a send-text command.
  const TXT_TYPE_PLAIN: uint8 := 0
  const TXT_TYPE_CLI_DATA: uint8 := 1
  const TXT_TYPE_SIGNED_PLAIN: uint8 := 2

  // Application protocol versions announced in app-start.
  const APP_VERSION_1: uint8 := 1
  const APP_VERSION_2: uint8 := 2
  const APP_VERSION_3: uint8 := 3

  // Advert types.
  const ADVERT_TYPE_NONE: uint8 := 0
  const ADVERT_TYPE_CHAT: uint8 := 1
  const ADVERT_TYPE_REPEATER: uint8 := 2
  const ADVERT_TYPE_ROOM: uint8 := 3

  /** Largest payload a frame's 16-bit length field can declare. */
  const MAX_FRAME_PAYLOAD: nat := 0xFFFF

  /** Capacity of the fixed buffer a send-text payload is built in. */
  const MAX_TXT_PAYLOAD: nat := 4096

  /** Bytes of a send-text payload before the message: cmd, type, attempt, timestamp(4), key prefix(6). */
  const TXT_HEADER_LEN: nat := 13

  /** Length of the public key prefix that names a contact. */
  const PUB_KEY_PREFIX_LEN: nat := 6

  /** How long the handshake waits for the self-info response, in milliseconds. */
  const SELF_INFO_TIMEOUT_MS: nat := 2000

  /** Size of the buffer the handshake response is read into. */
  const READ_BUF_LEN: nat := 4096
}
