/** The `for state != nil` loop of `Read`, run against a finite script of inputs followed by
    silence. */
module ReceiverLoop {
  import opened Bytes
  import opened Transfer
  import opened ReceiverSpec
  import opened ReceiverLaws

  /** What goes on the wire; block numbers are the 16-bit ones. */
  datatype Packet = AckPacket(block: nat) | ErrorPacket

  datatype Outcome = Outcome(r: Receiver, inbox: seq<DataEvent>, sent: seq<Packet>)

  function Wire(acks: seq<nat>): seq<Packet> {
    if acks == [] then [] else Wire(acks[..|acks| - 1]) + [AckPacket(U16(acks[|acks| - 1]))]
  }

  /** One state function, with the next input of the script; an empty script times out. */
  function Turn(r: Receiver, inbox: seq<DataEvent>): Outcome
    requires r.phase != Idle
  {
    match r.phase
    case Read => Outcome(AfterRead(r), inbox, [])
    case AckData => var o := AfterAckData(r); Outcome(o.r, inbox, Wire(o.acks))
    case ReadData =>
      if Exhausted(r) then Outcome(AfterReadData(r, Timeout).r, inbox, [ErrorPacket])
      else
        var o := AfterReadData(r, if inbox == [] then Timeout else inbox[0]);
        Outcome(o.r, if inbox == [] then [] else inbox[1..], Wire(o.acks))
  }

  /** The same, with everything sent so far. */
  function Advance(o: Outcome): Outcome
    requires o.r.phase != Idle
  {
    var t := Turn(o.r, o.inbox);
    Outcome(t.r, t.inbox, o.sent + t.sent)
  }

  lemma TurnKeepsInv(r: Receiver, inbox: seq<DataEvent>)
    requires Inv(r) && r.phase != Idle
    ensures Inv(Turn(r, inbox).r)
  {
    match r.phase
    case Read => ReadKeepsInv(r);
    case AckData => AckDataKeepsInv(r);
    case ReadData =>
  }

  /** The move of the abstract receiver that a turn makes. */
  function MoveOf(r: Receiver, inbox: seq<DataEvent>): Move {
    if r.phase == ReadData then DoData(if inbox == [] then Timeout else inbox[0]) else DoStep
  }

  /** Every turn of the loop is a move of the abstract receiver, and puts its ACKs on the wire with
      their numbers modulo 65536. Only `readData` reads, one input at most, and nothing when it gives
      up; only then is an ERROR sent. */
  lemma TurnIsMove(r: Receiver, inbox: seq<DataEvent>)
    requires r.phase != Idle
    ensures Enabled(r, MoveOf(r, inbox))
    ensures Turn(r, inbox).r == After(r, MoveOf(r, inbox)).r
    ensures !(r.phase == ReadData && Exhausted(r)) ==>
              Turn(r, inbox).sent == Wire(After(r, MoveOf(r, inbox)).acks)
    ensures Turn(r, inbox).inbox == if r.phase == ReadData && !Exhausted(r) && inbox != [] then inbox[1..] else inbox
    ensures r.phase == ReadData && Exhausted(r) ==> Turn(r, inbox).sent == [ErrorPacket]
  {}

  function Patience(r: Receiver): nat {
    if r.tries < r.cfg.retransmit then r.cfg.retransmit - r.tries else 0
  }

  function Rank(r: Receiver): nat {
    match r.phase
    case Idle => 0
    case ReadData => 1
    case Read => 2
    case AckData => 3
  }

  predicate Below(o: Outcome, r: Receiver, inbox: seq<DataEvent>) {
    || |o.inbox| < |inbox|
    || (|o.inbox| == |inbox| && Patience(o.r) < Patience(r))
    || (|o.inbox| == |inbox| && Patience(o.r) == Patience(r) && Rank(o.r) < Rank(r))
  }

  lemma TurnDescends(r: Receiver, inbox: seq<DataEvent>)
    requires r.phase != Idle
    ensures Below(Turn(r, inbox), r, inbox)
  {}

  /** The whole loop. That this function is accepted is the proof that the loop ends. */
  function RunToIdle(r: Receiver, inbox: seq<DataEvent>): (o: Outcome)
    requires Inv(r)
    ensures Inv(o.r) && o.r.phase == Idle
    decreases |inbox|, Patience(r), Rank(r)
  {
    if r.phase == Idle then Outcome(r, inbox, [])
    else
      TurnKeepsInv(r, inbox);
      TurnDescends(r, inbox);
      var o := Turn(r, inbox);
      hide Inv, Turn, Patience, Rank;
      var rest := RunToIdle(o.r, o.inbox);
      Outcome(rest.r, rest.inbox, o.sent + rest.sent)
  }

  /** `n` copies of the same ACK. */
  function Repeat(n: nat, p: Packet): seq<Packet> {
    if n == 0 then [] else [p] + Repeat(n - 1, p)
  }

  /** `readData` sits through at most `retransmit` timeouts in a row, repeating the ACK of the
      current block at each, before it reports the failure and gives up. */
  lemma {:induction false} GivesUp(r: Receiver, inbox: seq<DataEvent>)
    requires Inv(r) && r.phase == ReadData
    requires forall i :: 0 <= i < |inbox| && i < Patience(r) ==> inbox[i] == Timeout
    ensures var o := RunToIdle(r, inbox);
      && o.r.err == MaxRetries && o.r.count == r.count && o.r.n == r.n
      && o.inbox == inbox[Min(|inbox|, Patience(r))..]
      && o.sent == Repeat(Patience(r), AckPacket(U16(r.count))) + [ErrorPacket]
    decreases Patience(r)
  {
    var o := Turn(r, inbox);
    TurnKeepsInv(r, inbox);
    TurnDescends(r, inbox);
    if Exhausted(r) {
      assert RunToIdle(o.r, o.inbox) == Outcome(o.r, o.inbox, []);
    } else {
      TimeoutTurn(r, inbox);
      hide Inv, Turn, U16;
      var ack := AckPacket(U16(r.count));
      assert Patience(r) == Patience(o.r) + 1;
      assert forall i :: 0 <= i < |o.inbox| ==> o.inbox[i] == inbox[i + 1];
      RepeatFirst(Patience(o.r), ack);
      GivesUp(o.r, o.inbox);
      var k := Min(|o.inbox|, Patience(o.r));
      assert inbox != [] ==> inbox[1..][k..] == inbox[k + 1..];
    }
  }

  /** In numbers: a receiver that has heard nothing since it last took or passed over a block repeats its
      ACK `retransmit` times. */
  lemma {:induction false} GivesUpInSilence(r: Receiver)
    requires Inv(r) && r.phase == ReadData && r.tries == 0
    ensures var o := RunToIdle(r, []);
      o.r.err == MaxRetries && o.sent == Repeat(r.cfg.retransmit, AckPacket(U16(r.count))) + [ErrorPacket]
  {
    GivesUp(r, []);
    hide Inv, RunToIdle, Repeat;
  }

  lemma {:induction false} RepeatFirst(n: nat, p: Packet)
    ensures Repeat(n + 1, p) + [ErrorPacket] == [p] + (Repeat(n, p) + [ErrorPacket])
  {}

  lemma TimeoutTurn(r: Receiver, inbox: seq<DataEvent>)
    requires r.phase == ReadData && !Exhausted(r) && (inbox != [] ==> inbox[0] == Timeout)
    ensures Turn(r, inbox) == Outcome(
      r.(tries := r.tries + 1, window := 0, lastAck := r.count),
      if inbox == [] then [] else inbox[1..], [AckPacket(U16(r.count))])
  {
    assert [r.count][..0] == [];
    assert Wire([r.count]) == Wire([]) + [AckPacket(U16(r.count))];
  }

  /** What one call of `Read` delivers: the next bytes of the accepted stream, all that were
      asked for unless it reports an error, and the end of the stream only when everything
      accepted has been delivered. */
  lemma {:induction false} LoopReturns(r: Receiver, inbox: seq<DataEvent>)
    requires Inv(r) && r.phase != Idle && r.n == 0
    ensures var t := RunToIdle(r, inbox).r;
      && t.n <= r.want && r.returned <= t.returned && |t.returned| == |r.returned| + t.n
      && t.returned <= t.accepted && r.accepted <= t.accepted
      && (t.err == NoErr ==> t.n == r.want)
      && (t.err == Eof <==> t.done && t.returned == t.accepted)
    decreases |inbox|, Patience(r), Rank(r)
  {
    TurnKeepsInv(r, inbox);
    TurnDescends(r, inbox);
    TurnReturns(r, inbox);
    var o := Turn(r, inbox);
    if o.r.phase == Idle {
      assert RunToIdle(o.r, o.inbox).r == o.r;
    } else {
      hide Inv, Turn, Patience, Rank;
      LoopReturns(o.r, o.inbox);
    }
  }

  lemma TurnReturns(r: Receiver, inbox: seq<DataEvent>)
    requires Inv(r) && r.phase != Idle && r.n == 0
    ensures var t := Turn(r, inbox).r;
      && t.want == r.want && r.accepted <= t.accepted
      && (t.phase != Idle ==> t.n == 0 && t.returned == r.returned)
      && (t.phase == Idle ==>
            && t.n <= r.want && t.returned == r.returned + r.rxBuf[..t.n] && t.returned <= t.accepted
            && (t.err == NoErr ==> t.n == r.want)
            && (t.err == Eof <==> t.done && t.returned == t.accepted))
  {
    match r.phase
    case Read =>
      var k := Min(r.want, |r.rxBuf|);
      assert r.returned + r.rxBuf[..k] + r.rxBuf[k..] == r.returned + r.rxBuf;
      assert k == |r.rxBuf| ==> r.rxBuf[..k] == r.rxBuf;
    case AckData =>
    case ReadData =>
      assert r.returned + r.rxBuf[..0] == r.returned;
  }

  /** An ERROR packet, an invalid datagram or a foreign opcode ends the call at once, with the error
      of the peer: nothing is acknowledged, nothing more is read, and nothing is taken or returned. */
  lemma {:induction false} PeerErrorStops(r: Receiver, rest: seq<DataEvent>)
    requires Inv(r) && r.phase == ReadData && !Exhausted(r)
    ensures var o := RunToIdle(r, [Bad] + rest);
      && o.r.err == Peer && o.r.phase == Idle && o.inbox == rest && o.sent == []
      && o.r.n == r.n && o.r.count == r.count && o.r.accepted == r.accepted && o.r.returned == r.returned
      && o.r.rxBuf == r.rxBuf && o.r.done == r.done
  {
    var inbox := [Bad] + rest;
    var o := Turn(r, inbox);
    TurnKeepsInv(r, inbox);
    assert inbox[1..] == rest;
    assert RunToIdle(o.r, o.inbox) == Outcome(o.r, o.inbox, []);
  }

  /** Only timeouts in a row count against the receiver: after any DATA packet, also one that is passed
      over, it waits again as often as at first. */
  lemma DataRestoresPatience(r: Receiver, inbox: seq<DataEvent>)
    requires Inv(r) && r.phase == ReadData && !Exhausted(r) && inbox != [] && inbox[0].Data?
    ensures var o := Turn(r, inbox);
      && o.r.phase == AckData && o.r.rx == inbox[0].block && o.r.tries == 0 && o.sent == []
      && Turn(o.r, o.inbox).r.phase == Read && Turn(o.r, o.inbox).r.tries == 0
      && Patience(Turn(o.r, o.inbox).r) == r.cfg.retransmit
  {
    hide Inv, U16;
  }

  /** A call sends an ERROR if and only if it gives up. */
  lemma {:induction false} ErrorLog(r: Receiver, inbox: seq<DataEvent>)
    requires Inv(r) && r.err != MaxRetries
    ensures var o := RunToIdle(r, inbox); ErrorPacket in o.sent <==> o.r.err == MaxRetries
    decreases |inbox|, Patience(r), Rank(r)
  {
    if r.phase != Idle {
      TurnKeepsInv(r, inbox);
      TurnDescends(r, inbox);
      TurnErr(r, inbox);
      var o := Turn(r, inbox);
      if o.r.err == MaxRetries {
        assert RunToIdle(o.r, o.inbox) == Outcome(o.r, o.inbox, []);
      } else {
        hide Inv, Turn, Patience, Rank;
        ErrorLog(o.r, o.inbox);
      }
    }
  }

  lemma {:induction false} WireIsAcks(acks: seq<nat>)
    ensures ErrorPacket !in Wire(acks)
  {
    if acks != [] {
      WireIsAcks(acks[..|acks| - 1]);
    }
  }

  lemma TurnErr(r: Receiver, inbox: seq<DataEvent>)
    requires r.phase != Idle && r.err != MaxRetries
    ensures var o := Turn(r, inbox);
      && (o.r.err == MaxRetries <==> r.phase == ReadData && Exhausted(r))
      && (o.r.err == MaxRetries ==> o.r.phase == Idle)
      && (ErrorPacket in o.sent <==> r.phase == ReadData && Exhausted(r))
  {
    if r.phase == AckData { WireIsAcks(AfterAckData(r).acks); }
    if r.phase == ReadData { WireIsAcks(AfterReadData(r, if inbox == [] then Timeout else inbox[0]).acks); }
    hide Wire;
  }
}
