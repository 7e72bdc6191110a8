/** The sending half of a connection as a pure state machine.

    The replay ring is abstracted to the list of every block ever cut (`chunks`) and a
    cursor into it; the 16-bit block counter of the program is `U16(cursor)`. `acked` and
    `stream` are history: the position of the last accepted ACK, and the bytes accepted by
    `Write` before `Close`. */
module SenderSpec {
  import opened Bytes
  import opened Transfer

  /** The state function about to run; `Idle` is the nil state. */
  datatype Phase = Idle | Write | SendOack | WriteData | GetAck

  datatype Sender = Sender(
    cfg: Config,
    chunks: seq<seq<byte>>,
    pending: seq<byte>,
    cursor: nat,
    window: nat,
    tries: nat,
    done: bool,
    closing: bool,
    err: ConnErr,
    optionsParsed: bool,
    ackOpts: bool,
    txOack: bool,
    p: seq<byte>,
    n: nat,
    phase: Phase,
    acked: nat,
    stream: seq<byte>)

  /** What `readFromNet` brings to `getAck`: nothing, a datagram from another address, one
      that ends the transfer, or an ACK (only `U16(num)` is on the wire). */
  datatype AckEvent = Timeout | Stray | Bad | Ack(num: nat)

  function Fresh(cfg: Config, optionsParsed: bool, ackOpts: bool): Sender {
    Sender(cfg, [], [], 0, 0, 0, false, false, NoErr, optionsParsed, ackOpts, false, [], 0, Idle, 0, [])
  }

  /** The block that a ring of `slots` slots returns at position `cursor` behind `head`:
      the last block stored in the slot of `cursor`. */
  function ReplayIndex(cursor: nat, head: nat, slots: nat): (j: nat)
    requires cursor < head && slots >= 1
    ensures cursor <= j < head && head - j <= slots
    ensures j == cursor <==> head - cursor <= slots
    decreases head - cursor
  {
    if head - cursor <= slots then cursor else ReplayIndex(cursor + slots, head, slots)
  }

  /** It is the one block still in the ring that shares the slot of `cursor`. */
  lemma {:induction false} ReplaySlot(cursor: nat, head: nat, slots: nat)
    requires cursor < head && slots >= 1
    ensures ReplayIndex(cursor, head, slots) % slots == cursor % slots
    decreases head - cursor
  {
    if head - cursor > slots {
      ReplaySlot(cursor + slots, head, slots);
      ModUnique(cursor + slots, slots, cursor / slots + 1, cursor % slots);
    }
  }

  /** The size of `k` full slots. */
  function SlotBytes(k: nat, size: nat): nat {
    if k == 0 then 0 else size + SlotBytes(k - 1, size)
  }

  lemma {:induction false} SlotBytesProduct(k: nat, size: nat)
    ensures SlotBytes(k, size) == k * size
  {
    if k > 0 {
      SlotBytesProduct(k - 1, size);
      assert (k - 1) * size + size == k * size;
    }
  }

  /** `txBuf.Len()`, which counts every replayed slot as full. */
  function BufLen(s: Sender): nat
    requires s.cursor <= |s.chunks|
  {
    |s.pending| + SlotBytes(|s.chunks| - s.cursor, s.cfg.blksize)
  }

  /** `writeData` is about to put a DATA packet on the wire. */
  predicate Sends(s: Sender)
    requires s.cursor <= |s.chunks|
  {
    && s.phase == WriteData
    && !(s.closing && s.done)
    && (BufLen(s) >= s.cfg.blksize || s.closing)
  }

  function Payload(s: Sender): seq<byte>
    requires s.cfg.Valid() && s.cursor <= |s.chunks|
  {
    if s.cursor < |s.chunks| then
      s.chunks[ReplayIndex(s.cursor, |s.chunks|, s.cfg.windowsize)]
    else
      s.pending[..Min(s.cfg.blksize, |s.pending|)]
  }

  /** The packet put on the wire when `Sends(s)`. */
  function SentBlock(s: Sender): Block
    requires s.cfg.Valid() && s.cursor <= |s.chunks|
  {
    Block(s.cursor + 1, Payload(s))
  }

  // Calls from the application, in phase Idle.

  function CallWrite(s: Sender, p: seq<byte>): Sender {
    if s.err != NoErr then s
    else
      s.(p := p, optionsParsed := true,
         phase := if !s.optionsParsed && s.ackOpts then SendOack else Write)
  }

  function CallClose(s: Sender): Sender {
    if s.err != NoErr || !s.optionsParsed then s
    else s.(closing := true, p := [], phase := Write)
  }

  // State functions.

  function AfterSendOack(s: Sender): Sender {
    s.(txOack := true, phase := GetAck)
  }

  function AfterWrite(s: Sender): Sender {
    s.(pending := s.pending + s.p, n := |s.p|, phase := WriteData,
       stream := if s.closing then s.stream else s.stream + s.p)
  }

  /** The short block, or the last of a window, is followed by waiting for an ACK. */
  predicate EndsWindow(s: Sender, block: seq<byte>) {
    |block| < s.cfg.blksize || s.window + 1 >= s.cfg.windowsize
  }

  function AfterWriteData(s: Sender): Sender
    requires s.cfg.Valid() && s.cursor <= |s.chunks|
  {
    if !Sends(s) then s.(phase := Idle)
    else
      var block := Payload(s);
      s.(chunks := if s.cursor < |s.chunks| then s.chunks else s.chunks + [block],
         pending := if s.cursor < |s.chunks| then s.pending else s.pending[|block|..],
         cursor := s.cursor + 1,
         window := if |block| >= s.cfg.blksize && EndsWindow(s, block) then 0 else s.window + 1,
         done := s.done || |block| < s.cfg.blksize,
         txOack := false,
         phase := if EndsWindow(s, block) then GetAck else WriteData)
  }

  /** `getAck` gives up before reading anything. */
  predicate Exhausted(s: Sender) {
    s.tries >= s.cfg.retransmit
  }

  /** The raw 16-bit comparison that decides whether an ACK is taken or ignored. */
  predicate Accepts(s: Sender, num: nat) {
    U16(num) <= U16(s.cursor)
  }

  function AfterGetAck(s: Sender, ev: AckEvent): Sender {
    if Exhausted(s) then
      s.(tries := s.tries + 1, err := MaxRetries, txOack := false, phase := Idle)
    else
      match ev
      case Timeout => s.(tries := s.tries + 1, err := TimedOut)
      case Stray => s.(tries := s.tries + 1)
      case Bad => s.(tries := s.tries + 1, err := Peer, phase := Idle)
      case Ack(num) =>
        if !Accepts(s, num) then s.(tries := s.tries + 1)
        else
          var back := U16(s.cursor) - U16(num);
          s.(cursor := s.cursor - back,
             window := if back == 0 then s.window else 0,
             done := s.done && back == 0,
             tries := 0,
             acked := s.cursor - back,
             phase := if s.txOack then Write else WriteData)
  }

  /** Every way the sender can move. `inputs` come from the application or the network. */
  datatype Move = DoWrite(p: seq<byte>) | DoClose | DoStep | DoAck(ev: AckEvent)

  predicate Enabled(s: Sender, m: Move) {
    match m
    case DoWrite(_) => s.phase == Idle
    case DoClose => s.phase == Idle
    case DoStep => s.phase == Write || s.phase == SendOack || s.phase == WriteData
    case DoAck(_) => s.phase == GetAck
  }

  function After(s: Sender, m: Move): Sender
    requires s.cfg.Valid() && s.cursor <= |s.chunks| && Enabled(s, m)
  {
    match m
    case DoWrite(p) => CallWrite(s, p)
    case DoClose => CallClose(s)
    case DoStep =>
      if s.phase == Write then AfterWrite(s)
      else if s.phase == SendOack then AfterSendOack(s)
      else AfterWriteData(s)
    case DoAck(ev) => AfterGetAck(s, ev)
  }

  // What every move keeps.

  /** The window counter is the distance from the last accepted ACK, and that distance never
      exceeds the negotiated window. */
  ghost predicate WindowInv(s: Sender) {
    && s.acked <= s.cursor <= s.acked + s.cfg.windowsize
    && s.window <= s.cfg.windowsize
    && (s.err == MaxRetries || s.err == Peer ==> s.phase == Idle)
    && (s.phase == GetAck && !s.done ==> s.window == 0)
    && (s.phase != GetAck && !s.done && s.err != MaxRetries && s.err != Peer ==>
          s.window == s.cursor - s.acked && s.window < s.cfg.windowsize)
  }

  /** The blocks cut so far partition the stream. */
  ghost predicate ChunkInv(s: Sender) {
    && s.cursor <= |s.chunks|
    && Blocked(s.chunks, s.cfg.blksize)
    && (EndsShort(s.chunks, s.cfg.blksize) ==> s.closing && Flatten(s.chunks) == s.stream)
    && (!EndsShort(s.chunks, s.cfg.blksize) ==> Flatten(s.chunks) + s.pending == s.stream)
  }

  /** The `done` flag means that the short block was just read, and nothing is cut after it. */
  ghost predicate DoneInv(s: Sender) {
    && (s.done ==> EndsShort(s.chunks, s.cfg.blksize))
    && (EndsShort(s.chunks, s.cfg.blksize) && s.cursor == |s.chunks| ==> s.done)
    && (s.closing && s.phase == Idle && s.err == NoErr ==> s.done)
    && (s.closing && s.phase == Write ==> s.p == [] || s.done)
    && (s.closing ==> s.optionsParsed && s.phase != SendOack)
    && (s.txOack ==> s.chunks == [] && s.window == 0 && !s.done)
    && (s.phase == SendOack ==> s.chunks == [] && s.window == 0 && !s.done)
    && (!s.optionsParsed ==> s.chunks == [] && s.phase == Idle && s.window == 0 && !s.done)
    && (s.phase == GetAck && !s.done && !s.txOack ==> s.cursor == s.acked + s.cfg.windowsize)
    && (s.phase == GetAck && !s.txOack ==> s.acked < s.cursor)
    && (s.txOack && s.phase == GetAck ==> !s.closing)
    && (s.done && s.phase != GetAck && s.err != MaxRetries && s.err != Peer ==> s.acked == s.cursor)
  }

  ghost predicate Inv(s: Sender) {
    s.cfg.Valid() && WindowInv(s) && ChunkInv(s) && DoneInv(s)
  }
}
