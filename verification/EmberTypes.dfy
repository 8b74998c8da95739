/** Constants several parts of the stack's interface share. */
module EmberTypes {
  import opened ByteUtilities

  const EMBER_SUCCESS: byte := 0x00
  const EMBER_MAC_NO_ACK_RECEIVED: byte := 0x40
  /** Size of the buffer a command is built in, and of the one its response is copied to. */
  const MAX_STACK_API_COMMAND_SIZE := 2096
}
