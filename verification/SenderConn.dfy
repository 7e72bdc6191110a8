/** The sending methods of `conn`, with the ring, the 16-bit block number and the counters the
    program keeps. Every state function is proved to be the corresponding step of the abstract
    sender, and the loops of `Write` and `Close` to be `RunToIdle`.

    `inbox` is what the network will deliver (silence when it is empty), `sent` what was put on
    the wire. */
module SenderConn {
  import opened Bytes
  import opened Transfer
  import opened SenderSpec
  import opened SenderLaws
  import opened SenderLoop
  import opened RingBuffer

  /** Running on from `now` ends in `end`. */
  ghost predicate Remaining(now: Outcome, end: Outcome)
    requires Inv(now.s)
  {
    var rest := RunToIdle(now.s, now.inbox);
    end == Outcome(rest.s, rest.inbox, now.sent + rest.sent)
  }

  lemma AdvanceRemaining(now: Outcome, end: Outcome)
    requires Inv(now.s) && now.s.phase != Idle && Remaining(now, end)
    ensures Inv(Advance(now).s) && Remaining(Advance(now), end)
  {
    TurnKeepsInv(now.s, now.inbox);
    var t := Turn(now.s, now.inbox);
    var rest := RunToIdle(t.s, t.inbox);
    hide Inv, Turn;
    assert now.sent + (t.sent + rest.sent) == now.sent + t.sent + rest.sent;
  }

  class Conn {
    const cfg: Config
    const ackOpts: bool
    const buf: array<byte>
    const txBuf: Ring

    var optionsParsed: bool
    var window: nat
    var block: nat
    var p: seq<byte>
    var n: nat
    var tries: nat
    var err: ConnErr
    var closing: bool
    var done: bool
    var txOack: bool

    var inbox: seq<AckEvent>
    var sent: seq<Packet>

    ghost var acked: nat
    ghost var stream: seq<byte>

    /** The abstract sender, about to run state function `phase`. */
    ghost function View(phase: Phase): Sender
      reads this, txBuf
    {
      Sender(cfg, txBuf.chunks, txBuf.pending, txBuf.current,
             window, tries, done, closing, err, optionsParsed, ackOpts, txOack, p, n, phase, acked, stream)
    }

    /** The same, with the network. */
    ghost function Now(phase: Phase): Outcome
      reads this, txBuf
    {
      Outcome(View(phase), inbox, sent)
    }

    /** The block number is the ring's position modulo 65536, whatever has been rolled back. */
    ghost predicate Valid()
      reads this, txBuf, txBuf.buf, txBuf.slotsLen
      ensures Valid() ==> View(Idle).cfg.Valid() && txBuf.current <= |txBuf.chunks|
    {
      && cfg.Valid()
      && txBuf.Valid()
      && txBuf.slots == cfg.windowsize && txBuf.size == cfg.blksize
      && buf.Length == cfg.blksize && buf != txBuf.buf
      && block == U16(txBuf.current)
    }

    constructor (cfg: Config, optionsParsed: bool, ackOpts: bool, inbox: seq<AckEvent>)
      requires cfg.Valid()
      ensures Valid() && fresh(txBuf) && fresh(txBuf.buf) && fresh(txBuf.slotsLen) && fresh(buf)
      ensures View(Idle) == Fresh(cfg, optionsParsed, ackOpts)
      ensures this.inbox == inbox && sent == []
    {
      this.cfg := cfg;
      this.optionsParsed, this.ackOpts := optionsParsed, ackOpts;
      buf := new byte[cfg.blksize](_ => 0);
      txBuf := new Ring(cfg.windowsize, cfg.blksize);
      window, block, p, n, tries, err := 0, 0, [], 0, 0, NoErr;
      closing, done, txOack := false, false, false;
      this.inbox, sent := inbox, [];
      acked, stream := 0, [];
    }

    /** `startWrite`, with the part of `writeSetup` that follows option parsing. */
    method StartWrite(p: seq<byte>) returns (next: Phase)
      requires Valid() && err == NoErr
      modifies this
      ensures Valid() && View(next) == CallWrite(old(View(Idle)), p)
      ensures inbox == old(inbox) && sent == old(sent)
    {
      this.p := p;
      if !optionsParsed {
        optionsParsed := true;
        next := if ackOpts then SendOack else SenderSpec.Write;
      } else {
        next := SenderSpec.Write;
      }
    }

    method DoSendOack() returns (next: Phase)
      requires Valid()
      modifies this`sent, this`txOack
      ensures Valid() && Now(next) == Advance(old(Now(SendOack)))
    {
      sent := sent + [OackPacket];
      txOack := true;
      next := GetAck;
    }

    method DoWrite() returns (next: Phase)
      requires Valid()
      modifies this`n, this`stream, txBuf
      ensures Valid() && Now(next) == Advance(old(Now(SenderSpec.Write)))
    {
      assert sent + [] == sent;
      n := txBuf.Write(p);
      stream := if closing then stream else stream + p;
      next := WriteData;
    }

    /** Reads the next block off the ring and puts it on the wire under the next number. */
    method SendBlock() returns (k: nat)
      requires Valid()
      modifies this`block, this`sent, this`txOack, txBuf, txBuf.buf, txBuf.slotsLen, buf
      ensures Valid() && !txOack && txBuf.current == old(txBuf.current) + 1
      ensures var block := old(Payload(View(WriteData)));
        && k == |block|
        && sent == old(sent) + [DataPacket(U16(old(txBuf.current) + 1), block)]
        && if old(txBuf.current < |txBuf.chunks|)
           then txBuf.chunks == old(txBuf.chunks) && txBuf.pending == old(txBuf.pending)
           else txBuf.chunks == old(txBuf.chunks) + [block] && txBuf.pending == old(txBuf.pending)[k..]
    {
      U16Next(txBuf.current);
      hide U16, SlotBytes, Holds;
      block := if block == 0xFFFF then 0 else block + 1;
      k := ReadBlock();
      sent := sent + [DataPacket(block, buf[..k])];
      txOack := false;
    }

    method ReadBlock() returns (k: nat)
      requires txBuf.Valid() && cfg.Valid() && txBuf.slots == cfg.windowsize && txBuf.size == cfg.blksize
      requires buf.Length == cfg.blksize && buf != txBuf.buf
      modifies txBuf, txBuf.buf, txBuf.slotsLen, buf
      ensures txBuf.Valid() && k <= buf.Length && txBuf.current == old(txBuf.current) + 1
      ensures buf[..k] == old(Payload(View(WriteData)))
      ensures if old(txBuf.current < |txBuf.chunks|)
              then txBuf.chunks == old(txBuf.chunks) && txBuf.pending == old(txBuf.pending)
              else txBuf.chunks == old(txBuf.chunks) + [buf[..k]] && txBuf.pending == old(txBuf.pending)[k..]
    {
      var n, eof := txBuf.Read(buf);
      k := n;
    }

    /** The window bookkeeping that follows a block of `k` bytes. */
    method CountBlock(k: nat) returns (next: Phase)
      requires window < cfg.windowsize <= 0xFFFF
      modifies this`window, this`done
      ensures done == (old(done) || k < cfg.blksize)
      ensures next == if k < cfg.blksize || old(window) + 1 >= cfg.windowsize then GetAck else WriteData
      ensures window == if k >= cfg.blksize && next == GetAck then 0 else old(window) + 1
    {
      window := U16(window + 1);
      if k < cfg.blksize {
        done := true;
        return GetAck;
      }
      if window < cfg.windowsize {
        return WriteData;
      }
      window := 0;
      next := GetAck;
    }

    /** The part of `writeData` that follows the two early returns. */
    method SendAndCount() returns (next: Phase)
      requires Valid() && Sends(View(WriteData)) && window < cfg.windowsize
      modifies this`block, this`sent, this`txOack, this`window, this`done
      modifies txBuf, txBuf.buf, txBuf.slotsLen, buf
      ensures Valid() && View(next) == AfterWriteData(old(View(WriteData)))
      ensures var s := old(View(WriteData));
        sent == old(sent) + [DataPacket(U16(s.cursor + 1), Payload(s))]
    {
      hide Payload, Ring.Valid, Sends, U16;
      var k := SendBlock();
      next := CountBlock(k);
    }

    method DoWriteData() returns (next: Phase)
      requires Valid() && (Sends(View(WriteData)) ==> window < cfg.windowsize)
      modifies this`block, this`sent, this`txOack, this`window, this`done
      modifies txBuf, txBuf.buf, txBuf.slotsLen, buf
      ensures Valid() && View(next) == AfterWriteData(old(View(WriteData)))
      ensures var s := old(View(WriteData));
        sent == old(sent) + if Sends(s) then [DataPacket(U16(s.cursor + 1), Payload(s))] else []
    {
      ghost var s := View(WriteData);
      var len := txBuf.Len();
      assert len == BufLen(s) && sent + [] == sent;
      hide BufLen, Payload, U16, Ring.Valid;
      if (closing && done) || (len < cfg.blksize && !closing) {
        next := Idle;
      } else {
        hide AfterWriteData;
        next := SendAndCount();
      }
    }

    /** Goes back to the block that the receiver acknowledged. */
    method Rollback(rxBlock: nat)
      requires Valid() && rxBlock < block
      modifies this`block, this`window, this`done, txBuf`current
      ensures Valid() && txBuf.current == old(txBuf.current - (U16(txBuf.current) - rxBlock))
      ensures window == 0 && !done
    {
      U16Back(txBuf.current, rxBlock);
      hide U16;
      txBuf.UnreadSlots(block - rxBlock);
      block := rxBlock;
      window := 0;
      done := false;
    }

    /** The part of `getAck` that follows a well-formed ACK. */
    method TakeAck(num: nat) returns (next: Phase)
      requires Valid() && !Exhausted(View(GetAck))
      modifies this`block, this`window, this`done, this`tries, this`acked, txBuf`current
      ensures Valid()
      ensures View(next) == AfterGetAck(old(View(GetAck)), Ack(num))
    {
      hide U16, Ring.Valid;
      var rxBlock := U16(num);
      if rxBlock > block {
        tries := tries + 1;
        next := GetAck;
      } else {
        if rxBlock != block {
          Rollback(rxBlock);
        }
        tries := 0;
        acked := txBuf.current;
        next := if txOack then SenderSpec.Write else WriteData;
      }
    }

    /** The part of `getAck` that follows the network read. */
    method HandleInput(ev: AckEvent) returns (next: Phase)
      requires Valid() && !Exhausted(View(GetAck))
      modifies this`block, this`window, this`done, this`tries, this`acked, this`err, txBuf`current
      ensures Valid()
      ensures View(next) == AfterGetAck(old(View(GetAck)), ev)
    {
      hide Ring.Valid, U16;
      match ev
      case Timeout =>
        tries, err := tries + 1, TimedOut;
        next := GetAck;
      case Stray =>
        tries := tries + 1;
        next := GetAck;
      case Bad =>
        tries, err := tries + 1, Peer;
        next := Idle;
      case Ack(num) =>
        hide AfterGetAck;
        next := TakeAck(num);
    }

    method DoGetAck() returns (next: Phase)
      requires Valid()
      modifies this`block, this`window, this`done, this`tries, this`acked, this`err, this`txOack
      modifies this`inbox, this`sent, txBuf`current
      ensures Valid()
      ensures old(Exhausted(View(GetAck))) ==>
                && View(next) == AfterGetAck(old(View(GetAck)), Timeout)
                && inbox == old(inbox) && sent == old(sent) + [ErrorPacket]
      ensures !old(Exhausted(View(GetAck))) ==>
                && View(next) == AfterGetAck(old(View(GetAck)), if old(inbox) == [] then Timeout else old(inbox)[0])
                && inbox == (if old(inbox) == [] then [] else old(inbox)[1..]) && sent == old(sent)
    {
      hide Ring.Valid, U16;
      if tries + 1 > cfg.retransmit {
        tries := tries + 1;
        sent := sent + [ErrorPacket];
        txOack := false;
        err := MaxRetries;
        next := Idle;
      } else {
        hide AfterGetAck;
        var ev := Timeout;
        if inbox != [] {
          ev, inbox := inbox[0], inbox[1..];
        }
        next := HandleInput(ev);
      }
    }

    method TurnWriteData() returns (next: Phase)
      requires Valid() && (Sends(View(WriteData)) ==> window < cfg.windowsize)
      modifies this, txBuf, txBuf.buf, txBuf.slotsLen, buf
      ensures Valid() && Now(next) == Advance(old(Now(WriteData)))
    {
      hide Valid, AfterWriteData, Payload, Sends, U16;
      next := DoWriteData();
    }

    method TurnGetAck() returns (next: Phase)
      requires Valid()
      modifies this, txBuf
      ensures Valid() && Now(next) == Advance(old(Now(GetAck)))
    {
      assert sent + [] == sent;
      hide Valid, AfterGetAck, Exhausted;
      next := DoGetAck();
    }

    /** One turn of the state loop: the state functions by name. */
    method Step(state: Phase) returns (next: Phase)
      requires Valid() && Inv(View(state)) && state != Idle
      modifies this, txBuf, txBuf.buf, txBuf.slotsLen, buf
      ensures Valid() && Inv(View(next)) && Now(next) == Advance(old(Now(state)))
    {
      assert state == WriteData && Sends(View(WriteData)) ==> window < cfg.windowsize;
      TurnKeepsInv(View(state), inbox);
      hide Inv, Turn, Ring.Valid;
      match state
      case SendOack => next := DoSendOack();
      case Write => next := DoWrite();
      case WriteData => next := TurnWriteData();
      case GetAck => next := TurnGetAck();
    }

    /** The state loop. */
    method Loop(start: Phase)
      requires Valid() && Inv(View(start))
      modifies this, txBuf, txBuf.buf, txBuf.slotsLen, buf
      ensures Valid()
      ensures var o := RunToIdle(old(View(start)), old(inbox));
        View(Idle) == o.s && inbox == o.inbox && sent == old(sent) + o.sent
    {
      var state := start;
      hide Inv, Turn, Patience, Rank, Ring.Valid;
      ghost var o := RunToIdle(View(start), inbox);
      while state != Idle
        invariant Valid() && Inv(View(state))
        invariant Remaining(Now(state), Outcome(o.s, o.inbox, old(sent) + o.sent))
        decreases |inbox|, Patience(View(state)), Rank(View(state))
      {
        TurnDescends(View(state), inbox);
        AdvanceRemaining(Now(state), Outcome(o.s, o.inbox, old(sent) + o.sent));
        state := Step(state);
      }
      assert sent + [] == sent;
    }

    /** `Write`: refused once an error is recorded, else the whole loop. */
    method Write(p: seq<byte>) returns (count: nat, error: ConnErr)
      requires Valid() && Inv(View(Idle))
      modifies this, txBuf, txBuf.buf, txBuf.slotsLen, buf
      ensures Valid() && Inv(View(Idle)) && error == err
      ensures old(err) != NoErr ==>
                count == 0 && View(Idle) == old(View(Idle)) && inbox == old(inbox) && sent == old(sent)
      ensures old(err) == NoErr ==>
                && count == n
                && Inv(CallWrite(old(View(Idle)), p))
                && var o := RunToIdle(CallWrite(old(View(Idle)), p), old(inbox));
                   View(Idle) == o.s && inbox == o.inbox && sent == old(sent) + o.sent
    {
      if err != NoErr {
        return 0, err;
      }
      CallsKeepInv(View(Idle), p);
      var start := StartWrite(p);
      Loop(start);
      return n, err;
    }

    /** `Close`: nothing before setup, else an empty write with `closing` set. */
    method Close() returns (error: ConnErr)
      requires Valid() && Inv(View(Idle))
      modifies this, txBuf, txBuf.buf, txBuf.slotsLen, buf
      ensures Valid() && Inv(View(Idle)) && error == err
      ensures old(err) != NoErr || !old(optionsParsed) ==>
                View(Idle) == old(View(Idle)) && inbox == old(inbox) && sent == old(sent)
      ensures old(err) == NoErr && old(optionsParsed) ==>
                && Inv(CallClose(old(View(Idle))))
                && var o := RunToIdle(CallClose(old(View(Idle))), old(inbox));
                   View(Idle) == o.s && inbox == o.inbox && sent == old(sent) + o.sent
    {
      if err != NoErr {
        return err;
      }
      if optionsParsed {
        CallsKeepInv(View(Idle), []);
        closing := true;
        var start := StartWrite([]);
        Loop(start);
      }
      return err;
    }
  }
}
