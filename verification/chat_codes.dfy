/** The sizes and return codes the chat devices and their clients share. */
module ChatCodes {
  /** Bytes in a message's content array, terminator included. */
  const MAX_MSG_LEN: nat := 256
  const MAX_USER_NUMBER: nat := 16

  /** ioctl commands. */
  const BUILD_ACCOUNT: int := 1
  const READ_ACCOUNT_INF: int := 2

  /** ioctl results. */
  const BUILD_SUCC: int := 0
  const IINS: int := -3

  /** Results of the clients' `send_message`. */
  const SEND_ERR: int := -1
  const SEND_SUCC: int := 1
}
