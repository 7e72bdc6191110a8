/** The receiving methods of `conn` in octet mode, with the 16-bit block number and the counters
    the program keeps. Every state function is proved to be the corresponding step of the
    abstract receiver, and the loop of `Read` to be `RunToIdle`.

    `inbox` is what the network will deliver (silence when it is empty), `sent` what was put on
    the wire. */
module ReceiverConn {
  import opened Bytes
  import opened Transfer
  import opened ReceiverSpec
  import opened ReceiverLaws
  import opened ReceiverLoop

  /** Running on from `now` ends in `end`. */
  ghost predicate Remaining(now: Outcome, end: Outcome)
    requires Inv(now.r)
  {
    var rest := RunToIdle(now.r, now.inbox);
    end == Outcome(rest.r, rest.inbox, now.sent + rest.sent)
  }

  lemma AdvanceRemaining(now: Outcome, end: Outcome)
    requires Inv(now.r) && now.r.phase != Idle && Remaining(now, end)
    ensures Inv(Advance(now).r) && Remaining(Advance(now), end)
  {
    TurnKeepsInv(now.r, now.inbox);
    var t := Turn(now.r, now.inbox);
    var rest := RunToIdle(t.r, t.inbox);
    hide Inv, Turn;
    assert now.sent + (t.sent + rest.sent) == now.sent + t.sent + rest.sent;
  }

  class Conn {
    const cfg: Config

    var block: nat
    var window: nat
    var catchup: bool
    var want: nat
    var n: nat
    var tries: nat
    var err: ConnErr
    var done: bool
    var rxBuf: seq<byte>
    var rxBlock: nat
    var rxData: seq<byte>

    var inbox: seq<DataEvent>
    var sent: seq<Packet>

    ghost var count: nat
    ghost var rxNum: nat
    ghost var accepted: seq<byte>
    ghost var returned: seq<byte>
    ghost var lastAck: nat

    /** The abstract receiver, about to run state function `phase`. */
    ghost function View(phase: Phase): Receiver
      reads this
    {
      Receiver(cfg, count, window, tries, catchup, done, err, rxBuf, want, n, Block(rxNum, rxData), phase,
               accepted, returned, lastAck)
    }

    /** The same, with the network. */
    ghost function Now(phase: Phase): Outcome
      reads this
    {
      Outcome(View(phase), inbox, sent)
    }

    /** The 16-bit numbers are projections of the unbounded ones. */
    ghost predicate Valid()
      reads this
    {
      cfg.Valid() && block == U16(count) && rxBlock == U16(rxNum)
    }

    constructor (cfg: Config, inbox: seq<DataEvent>)
      requires cfg.Valid()
      ensures Valid() && View(Idle) == Fresh(cfg)
      ensures this.inbox == inbox && sent == []
    {
      this.cfg := cfg;
      block, window, catchup, want, n, tries, err, done := 0, 0, false, 0, 0, 0, NoErr, false;
      rxBuf, rxBlock, rxData := [], 0, [];
      this.inbox, sent := inbox, [];
      count, rxNum, accepted, returned, lastAck := 0, 0, [], [], 0;
    }

    /** Hands buffered bytes to the caller when there are enough or the transfer is over. */
    method DoRead(p: array<byte>) returns (next: Phase)
      requires Valid() && want == p.Length
      modifies this`n, this`rxBuf, this`err, this`returned, p
      ensures Valid() && View(next) == AfterRead(old(View(Read)))
      ensures next == Idle ==> n <= p.Length && returned == old(returned) + p[..n]
    {
      if |rxBuf| >= want || done {
        n := Copy(p, rxBuf);
        assert p[..n] == rxBuf[..n];
        returned := returned + rxBuf[..n];
        rxBuf := rxBuf[n..];
        if done && rxBuf == [] {
          err := Eof;
        }
        next := Idle;
      } else {
        next := ReadData;
      }
    }

    /** `bytes.Buffer.Read` into `p`. */
    static method Copy(p: array<byte>, s: seq<byte>) returns (k: nat)
      modifies p
      ensures k == Min(p.Length, |s|) && p[..k] == s[..k]
    {
      k := Min(p.Length, |s|);
      for i := 0 to k
        invariant p[..i] == s[..i]
      {
        p[i] := s[i];
      }
    }

    /** Sends an ACK for the current block; every use also starts a new window. */
    method SendAck()
      requires Valid()
      modifies this`sent, this`window, this`lastAck
      ensures Valid() && window == 0 && lastAck == count && sent == old(sent) + Wire([count])
    {
      assert [count][..0] == [] && Wire([count]) == Wire([]) + [AckPacket(U16(count))];
      hide U16;
      sent := sent + [AckPacket(block)];
      window, lastAck := 0, count;
    }

    /** The part of `readData` that follows the network read. */
    method HandleInput(ev: DataEvent) returns (next: Phase)
      requires Valid() && !Exhausted(View(ReadData))
      modifies this`tries, this`err, this`sent, this`window, this`lastAck
      modifies this`rxBlock, this`rxData, this`rxNum
      ensures Valid()
      ensures var o := AfterReadData(old(View(ReadData)), ev);
        View(next) == o.r && sent == old(sent) + Wire(o.acks)
    {
      assert sent + [] == sent;
      hide U16;
      match ev
      case Timeout =>
        tries := tries + 1;
        SendAck();
        next := ReadData;
      case Bad =>
        tries, err := tries + 1, Peer;
        next := Idle;
      case Data(b) =>
        rxBlock, rxData, rxNum, tries := U16(b.num), b.payload, b.num, 0;
        next := AckData;
    }

    method DoReadData() returns (next: Phase)
      requires Valid()
      modifies this`tries, this`err, this`sent, this`window, this`lastAck, this`inbox
      modifies this`rxBlock, this`rxData, this`rxNum
      ensures Valid() && Now(next) == Advance(old(Now(ReadData)))
    {
      hide U16, Wire;
      if tries >= cfg.retransmit {
        sent, err := sent + [ErrorPacket], MaxRetries;
        next := Idle;
      } else {
        hide AfterReadData;
        var ev := Timeout;
        if inbox != [] {
          ev, inbox := inbox[0], inbox[1..];
        }
        next := HandleInput(ev);
      }
    }

    /** Moves to the next block and buffers its data. */
    method Append()
      requires Valid() && window < 0xFFFF
      modifies this`block, this`window, this`catchup, this`rxBuf, this`done, this`count, this`accepted
      ensures Valid()
      ensures count == old(count) + 1 && window == old(window) + 1 && !catchup
      ensures rxBuf == old(rxBuf) + rxData && accepted == old(accepted) + rxData
      ensures done == (old(done) || |rxData| < cfg.blksize)
    {
      U16Next(count);
      assert U16(window + 1) == window + 1;
      hide U16;
      block, count := if block == 0xFFFF then 0 else block + 1, count + 1;
      window, catchup := U16(window + 1), false;
      rxBuf, accepted := rxBuf + rxData, accepted + rxData;
      if |rxData| < cfg.blksize {
        done := true;
      }
    }

    /** The part of `ackData` that takes a block in order. */
    method Take() returns (next: Phase)
      requires Valid() && window < 0xFFFF
      modifies this`block, this`window, this`catchup, this`rxBuf, this`done, this`sent
      modifies this`count, this`accepted, this`lastAck
      ensures Valid()
      ensures var o := Accept(old(View(AckData))); View(next) == o.r && sent == old(sent) + Wire(o.acks)
    {
      assert sent + [] == sent;
      hide U16;
      Append();
      if window >= cfg.windowsize || |rxData| < cfg.blksize {
        hide Wire;
        SendAck();
      }
      next := Read;
    }

    method DoAckData() returns (next: Phase)
      requires Valid() && window < cfg.windowsize
      modifies this`block, this`window, this`catchup, this`rxBuf, this`done, this`sent
      modifies this`count, this`accepted, this`lastAck
      ensures Valid()
      ensures var o := AfterAckData(old(View(AckData))); View(next) == o.r && sent == old(sent) + Wire(o.acks)
    {
      var diff := U16(rxBlock - block);
      assert diff == Diff(View(AckData)) && sent + [] == sent;
      hide U16, Diff;
      if diff == 1 {
        hide Accept;
        next := Take();
      } else if diff == 0 || diff > cfg.windowsize || catchup {
        next := Read;
      } else {
        SendAck();
        catchup := true;
        next := Read;
      }
    }

    /** One turn of the state loop: the state functions by name. */
    method Step(state: Phase, p: array<byte>) returns (next: Phase)
      requires Valid() && Inv(View(state)) && state != Idle && want == p.Length && n == 0
      modifies this, p
      ensures Valid() && Inv(View(next)) && Now(next) == Advance(old(Now(state))) && want == p.Length
      ensures if next == Idle then n <= p.Length && returned == old(returned) + p[..n]
              else n == 0 && returned == old(returned)
    {
      TurnKeepsInv(View(state), inbox);
      TurnReturns(View(state), inbox);
      assert sent + [] == sent && window < cfg.windowsize;
      hide Inv, AfterRead, AfterReadData, AfterAckData, U16, Exhausted;
      match state
      case Read => next := DoRead(p);
      case ReadData => next := DoReadData(); assert returned + p[..0] == returned;
      case AckData => next := DoAckData();
    }

    /** `Read`: the whole loop. What ends up in `p` is what the abstract receiver returns. */
    method ReadInto(p: array<byte>) returns (k: nat, error: ConnErr)
      requires Valid() && Inv(View(Idle))
      modifies this, p
      ensures Valid() && Inv(View(Idle)) && error == err && k == n
      ensures old(err) != NoErr ==>
                k == 0 && View(Idle) == old(View(Idle)).(n := 0) && inbox == old(inbox) && sent == old(sent)
      ensures old(err) == NoErr ==>
                && Inv(CallRead(old(View(Idle)), p.Length))
                && var o := RunToIdle(CallRead(old(View(Idle)), p.Length), old(inbox));
                   View(Idle) == o.r && inbox == o.inbox && sent == old(sent) + o.sent
      ensures k <= p.Length && returned == old(returned) + p[..k]
    {
      n := 0;
      assert returned + p[..0] == returned;
      if err != NoErr {
        return 0, err;
      }
      want := p.Length;
      var state := Read;
      assert View(state) == CallRead(old(View(Idle)), p.Length);
      MoveKeepsInv(old(View(Idle)), Move.DoRead(p.Length));
      ghost var o := RunToIdle(View(state), inbox);
      ghost var end := Outcome(o.r, o.inbox, sent + o.sent);
      hide Inv, Turn, Patience, Rank;
      while state != Idle
        invariant Valid() && Inv(View(state)) && want == p.Length
        invariant Remaining(Now(state), end)
        invariant if state == Idle then n <= p.Length && returned == old(returned) + p[..n]
                  else n == 0 && returned == old(returned)
        decreases |inbox|, Patience(View(state)), Rank(View(state))
      {
        TurnDescends(View(state), inbox);
        AdvanceRemaining(Now(state), end);
        state := Step(state, p);
      }
      assert sent + [] == sent;
      return n, err;
    }
  }
}
