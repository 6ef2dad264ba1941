/** The RIPEMD-160 compression function and initial chaining value
    (`process_msg_block`, `DIGEST_BUF_LEN` and `H0` of the `block` module).
    Their definitions are not part of this model: the compression function
    is an arbitrary total function from a chaining value and one 64-byte
    block to a new chaining value, and H0 an arbitrary chaining value, so
    everything proved about the hasher holds whatever the round tables are. */
module Block {
  import opened LittleEndian

  /** Number of 32-bit words in the chaining value. */
  const DIGEST_BUF_LEN: nat := 5

  /** Size in bytes of one message block (`type BlockSize = U64`). */
  const BLOCK_SIZE: nat := 64

  /** Five 32-bit chaining words h0..h4. */
  type State = s: seq<u32> | |s| == DIGEST_BUF_LEN witness [0, 0, 0, 0, 0]

  /** Exactly one block of message bytes. */
  type MsgBlock = b: seq<u8> | |b| == BLOCK_SIZE witness seq(64, _ => 0)

  /** The initial chaining value. */
  const H0: State

  /** One application of the compression function to a block. */
  const Compress: (State, MsgBlock) -> State
}
