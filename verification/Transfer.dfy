/** Transfer parameters after option negotiation. */
module Transfer {
  import opened Bytes

  datatype Config = Config(blksize: nat, windowsize: nat, retransmit: nat) {
    /** What the client's setters admit, and a little more: the receiver's buffer size
        `blksize + 4` must not wrap in 16 bits and the ring divides by `windowsize`. */
    predicate Valid() {
      1 <= blksize <= 0xFFFB && 1 <= windowsize <= 0xFFFF
    }
  }

  /** The value of `c.err`. `Peer` covers an ERROR packet, an invalid datagram and an
      unexpected opcode, which the state functions all treat alike. */
  datatype ConnErr = NoErr | TimedOut | MaxRetries | Peer | Eof

  /** What a DATA packet is: its unbounded number (the wire carries `U16(num)`) and payload. */
  datatype Block = Block(num: nat, payload: seq<byte>)
}
