/** The receiving half of a connection, in octet mode, as a pure state machine.

    `count` is the unbounded number of the last block accepted in order; the 16-bit block
    counter of the program is `U16(count)`. `accepted`, `returned` and `lastAck` are
    history: the payloads taken in order, the bytes handed to the caller, and the number
    carried by the last ACK. */
module ReceiverSpec {
  import opened Bytes
  import opened Transfer

  datatype Phase = Idle | Read | ReadData | AckData

  datatype Receiver = Receiver(
    cfg: Config,
    count: nat,
    window: nat,
    tries: nat,
    catchup: bool,
    done: bool,
    err: ConnErr,
    rxBuf: seq<byte>,
    want: nat,
    n: nat,
    rx: Block,
    phase: Phase,
    accepted: seq<byte>,
    returned: seq<byte>,
    lastAck: nat)

  /** What `readFromNet` brings to `readData`: nothing, a datagram that ends the transfer,
      or a DATA packet, of which only `U16(block.num)` and the payload are on the wire. */
  datatype DataEvent = Timeout | Bad | Data(block: Block)

  /** A receiver after `readSetup`, which has just acknowledged block 0. */
  function Fresh(cfg: Config): Receiver {
    Receiver(cfg, 0, 0, 0, false, false, NoErr, [], 0, 0, Block(0, []), Idle, [], [], 0)
  }

  /** A new state and the numbers of the ACKs sent on the way (at most one). */
  datatype Output = Output(r: Receiver, acks: seq<nat>)

  function CallRead(r: Receiver, want: nat): Receiver {
    if r.err != NoErr then r.(n := 0)
    else r.(n := 0, want := want, phase := Read)
  }

  function AfterRead(r: Receiver): Receiver {
    if |r.rxBuf| >= r.want || r.done then
      var k := Min(r.want, |r.rxBuf|);
      r.(n := k, rxBuf := r.rxBuf[k..], returned := r.returned + r.rxBuf[..k],
         err := if r.done && k == |r.rxBuf| then Eof else r.err, phase := Idle)
    else
      r.(phase := ReadData)
  }

  predicate Exhausted(r: Receiver) {
    r.tries >= r.cfg.retransmit
  }

  function AfterReadData(r: Receiver, ev: DataEvent): Output {
    if Exhausted(r) then
      Output(r.(err := MaxRetries, phase := Idle), [])
    else
      match ev
      case Timeout => Output(r.(tries := r.tries + 1, window := 0, lastAck := r.count), [r.count])
      case Bad => Output(r.(tries := r.tries + 1, err := Peer, phase := Idle), [])
      case Data(block) => Output(r.(tries := 0, rx := block, phase := AckData), [])
  }

  /** The 16-bit distance from the current block to the received one. */
  function Diff(r: Receiver): nat {
    U16(U16(r.rx.num) - U16(r.count))
  }

  /** Taking the block in `rx` as the next one; the last of a window, or of the transfer, is
      acknowledged. */
  function Accept(r: Receiver): Output {
    var last := |r.rx.payload| < r.cfg.blksize;
    var ack := last || r.window + 1 >= r.cfg.windowsize;
    Output(
      r.(count := r.count + 1,
         window := if ack then 0 else r.window + 1,
         catchup := false,
         rxBuf := r.rxBuf + r.rx.payload,
         accepted := r.accepted + r.rx.payload,
         done := r.done || last,
         lastAck := if ack then r.count + 1 else r.lastAck,
         phase := Read),
      if ack then [r.count + 1] else [])
  }

  function AfterAckData(r: Receiver): Output {
    var diff := Diff(r);
    if diff == 1 then Accept(r)
    else if diff == 0 || diff > r.cfg.windowsize || r.catchup then Output(r.(phase := Read), [])
    else Output(r.(window := 0, lastAck := r.count, catchup := true, phase := Read), [r.count])
  }

  datatype Move = DoRead(want: nat) | DoStep | DoData(ev: DataEvent)

  predicate Enabled(r: Receiver, m: Move) {
    match m
    case DoRead(_) => r.phase == Idle
    case DoStep => r.phase == Read || r.phase == AckData
    case DoData(_) => r.phase == ReadData
  }

  function After(r: Receiver, m: Move): Output
    requires Enabled(r, m)
  {
    match m
    case DoRead(want) => Output(CallRead(r, want), [])
    case DoStep => if r.phase == Read then Output(AfterRead(r), []) else AfterAckData(r)
    case DoData(ev) => AfterReadData(r, ev)
  }

  /** What every move keeps. */
  ghost predicate Inv(r: Receiver) {
    && r.cfg.Valid()
    // nothing taken from the wire is lost or repeated on its way to the caller
    && r.returned + r.rxBuf == r.accepted
    // the window counts exactly the blocks taken since the last ACK
    && r.lastAck + r.window == r.count
    && r.window < r.cfg.windowsize
    // the state functions only run on, and only wait for packets, before the end
    && (r.phase == ReadData || r.phase == AckData ==> !r.done && |r.rxBuf| < r.want)
    && (r.phase != Idle ==> r.err == NoErr)
    && (r.err == Eof ==> r.done && r.returned == r.accepted)
  }
}
