/** The `for state != nil` loop of `Write` and `Close`, run against a finite script of inputs
    followed by silence. */
module SenderLoop {
  import opened Bytes
  import opened Transfer
  import opened SenderSpec
  import opened SenderLaws

  /** What goes on the wire; block numbers are the 16-bit ones. */
  datatype Packet = DataPacket(block: nat, payload: seq<byte>) | OackPacket | ErrorPacket

  datatype Outcome = Outcome(s: Sender, inbox: seq<AckEvent>, sent: seq<Packet>)

  /** One state function, with the next input of the script; an empty script times out. */
  function Turn(s: Sender, inbox: seq<AckEvent>): Outcome
    requires s.cfg.Valid() && s.cursor <= |s.chunks| && s.phase != Idle
  {
    match s.phase
    case Write => Outcome(AfterWrite(s), inbox, [])
    case SendOack => Outcome(AfterSendOack(s), inbox, [OackPacket])
    case WriteData =>
      Outcome(AfterWriteData(s), inbox,
              if Sends(s) then [DataPacket(U16(s.cursor + 1), Payload(s))] else [])
    case GetAck =>
      if Exhausted(s) then Outcome(AfterGetAck(s, Timeout), inbox, [ErrorPacket])
      else if inbox == [] then Outcome(AfterGetAck(s, Timeout), [], [])
      else Outcome(AfterGetAck(s, inbox[0]), inbox[1..], [])
  }

  /** The same, with everything sent so far. */
  function Advance(o: Outcome): Outcome
    requires o.s.cfg.Valid() && o.s.cursor <= |o.s.chunks| && o.s.phase != Idle
  {
    var t := Turn(o.s, o.inbox);
    Outcome(t.s, t.inbox, o.sent + t.sent)
  }

  lemma TurnKeepsInv(s: Sender, inbox: seq<AckEvent>)
    requires Inv(s) && s.phase != Idle
    ensures Inv(Turn(s, inbox).s)
  {
    hide Inv, AfterWrite, AfterWriteData, AfterGetAck, AfterSendOack;
    match s.phase
    case Write => WriteKeepsInv(s);
    case SendOack => MoveKeepsInv(s, DoStep);
    case WriteData => WriteDataKeepsInv(s);
    case GetAck =>
      if Exhausted(s) || inbox == [] { GetAckKeepsInv(s, Timeout); } else { GetAckKeepsInv(s, inbox[0]); }
  }

  /** The move of the abstract sender that a turn makes. */
  function MoveOf(s: Sender, inbox: seq<AckEvent>): Move {
    if s.phase == GetAck then DoAck(if inbox == [] then Timeout else inbox[0]) else DoStep
  }

  /** Every turn of the loop is a move of the abstract sender, so what holds of all runs of moves
      holds of the loop; and a DATA packet goes on the wire exactly when the abstract sender sends a
      block, with its payload and its number modulo 65536. Only `getAck` reads, one input at most, and
      nothing when it gives up; only then is an ERROR sent. */
  lemma TurnIsMove(s: Sender, inbox: seq<AckEvent>)
    requires Inv(s) && s.phase != Idle
    ensures Enabled(s, MoveOf(s, inbox)) && Turn(s, inbox).s == After(s, MoveOf(s, inbox))
    ensures s.phase == WriteData ==>
              Turn(s, inbox).sent ==
              if Sends(s) then [DataPacket(U16(SentBlock(s).num), SentBlock(s).payload)] else []
    ensures s.phase != WriteData ==> forall p :: p in Turn(s, inbox).sent ==> !p.DataPacket?
    ensures Turn(s, inbox).inbox == if s.phase == GetAck && !Exhausted(s) && inbox != [] then inbox[1..] else inbox
    ensures OackPacket in Turn(s, inbox).sent <==> s.phase == SendOack
    ensures ErrorPacket in Turn(s, inbox).sent <==> s.phase == GetAck && Exhausted(s)
  {
    hide Inv, AfterWrite, AfterWriteData, AfterSendOack, Payload, Sends;
  }

  /** Attempts left before `getAck` gives up. */
  function Patience(s: Sender): nat {
    if s.tries <= s.cfg.retransmit then s.cfg.retransmit + 1 - s.tries else 0
  }

  /** State functions left before the loop must wait for input or stop. */
  function Rank(s: Sender): nat {
    match s.phase
    case Idle => 0
    case GetAck => 1
    case SendOack => 2
    case WriteData => if s.window <= s.cfg.windowsize then 2 + s.cfg.windowsize - s.window else 2
    case Write => 3 + s.cfg.windowsize
  }

  /** Lexicographic descent: of the script, then of the attempts, then of the phases. */
  predicate Below(o: Outcome, s: Sender, inbox: seq<AckEvent>) {
    || |o.inbox| < |inbox|
    || (|o.inbox| == |inbox| && Patience(o.s) < Patience(s))
    || (|o.inbox| == |inbox| && Patience(o.s) == Patience(s) && Rank(o.s) < Rank(s))
  }

  lemma WriteDataRank(s: Sender)
    requires Inv(s) && s.phase == WriteData
    ensures var t := AfterWriteData(s);
      Rank(t) < Rank(s) && t.tries == s.tries && t.cfg == s.cfg
  {
    hide ChunkInv, Payload, BufLen;
  }

  lemma TurnDescends(s: Sender, inbox: seq<AckEvent>)
    requires Inv(s) && s.phase != Idle
    ensures Below(Turn(s, inbox), s, inbox)
  {
    if s.phase == WriteData {
      WriteDataRank(s);
      hide AfterWriteData, Rank, Inv;
    } else {
      hide AfterWriteData, Inv;
    }
  }

  /** The whole loop. That this function is accepted is the proof that the loop ends. */
  function RunToIdle(s: Sender, inbox: seq<AckEvent>): (o: Outcome)
    requires Inv(s)
    ensures Inv(o.s) && o.s.phase == Idle
    decreases |inbox|, Patience(s), Rank(s)
  {
    if s.phase == Idle then Outcome(s, inbox, [])
    else
      TurnKeepsInv(s, inbox);
      TurnDescends(s, inbox);
      var o := Turn(s, inbox);
      hide Inv, Turn, Patience, Rank;
      var rest := RunToIdle(o.s, o.inbox);
      Outcome(rest.s, rest.inbox, o.sent + rest.sent)
  }

  /** An event that does not move `getAck` on to the next block. */
  predicate Idles(s: Sender, ev: AckEvent) {
    ev.Timeout? || ev.Stray? || (ev.Ack? && !Accepts(s, ev.num))
  }

  /** `getAck` reads at most `retransmit` inputs, counting silence, without an acceptable ACK;
      then it reports the failure to the peer and gives up. */
  lemma {:induction false} GivesUp(s: Sender, inbox: seq<AckEvent>)
    requires Inv(s) && s.phase == GetAck
    requires forall i :: 0 <= i < |inbox| && i < s.cfg.retransmit - s.tries ==> Idles(s, inbox[i])
    ensures var o := RunToIdle(s, inbox);
      && o.s.err == MaxRetries && o.sent == [ErrorPacket]
      && o.inbox == inbox[Min(|inbox|, if Exhausted(s) then 0 else s.cfg.retransmit - s.tries)..]
      && o.s.cursor == s.cursor && o.s.stream == s.stream
    decreases Patience(s)
  {
    var o := Turn(s, inbox);
    TurnKeepsInv(s, inbox);
    TurnDescends(s, inbox);
    if Exhausted(s) {
      assert RunToIdle(o.s, o.inbox) == Outcome(o.s, o.inbox, []);
    } else {
      IdleTurn(s, inbox);
      hide Inv, Turn, Patience;
      GivesUp(o.s, o.inbox);
      assert RunToIdle(s, inbox).sent == RunToIdle(o.s, o.inbox).sent;
    }
  }

  lemma IdleTurn(s: Sender, inbox: seq<AckEvent>)
    requires Inv(s) && s.phase == GetAck && !Exhausted(s) && (inbox != [] ==> Idles(s, inbox[0]))
    ensures var o := Turn(s, inbox);
      && o.s == s.(tries := s.tries + 1, err := o.s.err) && o.sent == []
      && o.inbox == if inbox == [] then [] else inbox[1..]
  {}

  /** The bytes of the current call are still on their way to the buffer. */
  predicate Promises(s: Sender) {
    s.phase == Write || s.phase == SendOack || (s.phase == GetAck && s.txOack)
  }

  /** The bytes of a call enter the buffer exactly once, however long the detour through the
      OACK and whatever is rolled back later, or not at all when the connection fails first. */
  lemma {:induction false} LoopCommits(s: Sender, inbox: seq<AckEvent>)
    requires Inv(s) && !s.closing
    ensures var t := RunToIdle(s, inbox).s;
      && !t.closing
      && (Promises(s) ==> || (t.stream == s.stream + s.p && t.n == |s.p|)
                          || (t.stream == s.stream && (t.err == MaxRetries || t.err == Peer)))
      && (!Promises(s) ==> t.stream == s.stream && t.n == s.n)
    decreases |inbox|, Patience(s), Rank(s)
  {
    if s.phase != Idle {
      TurnKeepsInv(s, inbox);
      TurnDescends(s, inbox);
      var o := Turn(s, inbox);
      TurnCommits(s, inbox);
      hide Inv, Turn, Patience, Rank;
      LoopCommits(o.s, o.inbox);
    }
  }

  lemma TurnCommits(s: Sender, inbox: seq<AckEvent>)
    requires Inv(s) && !s.closing && s.phase != Idle
    ensures var t := Turn(s, inbox).s;
      && !t.closing && t.p == s.p
      && (if s.phase == Write then t.stream == s.stream + s.p && t.n == |s.p| && !Promises(t)
          else t.stream == s.stream && t.n == s.n)
      && (Promises(s) && s.phase != Write ==> Promises(t) || (t.phase == Idle && t.err in {MaxRetries, Peer}))
      && (!Promises(s) ==> !Promises(t))
  {
    hide ChunkInv, WindowInv, Payload, BufLen;
    match s.phase
    case Write => hide AfterWriteData, AfterGetAck;
    case SendOack => hide AfterWriteData, AfterGetAck;
    case WriteData => hide AfterGetAck, AfterWrite;
    case GetAck => hide AfterWriteData, AfterWrite;
  }

  /** `Write` on an open connection: the stream grows by exactly the argument, or the call
      fails and the stream is untouched. */
  lemma WriteCommits(s: Sender, p: seq<byte>, inbox: seq<AckEvent>)
    requires Inv(s) && s.phase == Idle && !s.closing
    ensures Inv(CallWrite(s, p))
    ensures var t := RunToIdle(CallWrite(s, p), inbox).s;
      || (t.stream == s.stream + p && t.n == |p|)
      || (t.stream == s.stream && t.err != NoErr)
  {
    CallsKeepInv(s, p);
    LoopCommits(CallWrite(s, p), inbox);
  }

  // The log of a call.

  /** An ERROR packet, an invalid datagram or a foreign opcode ends the call at once, with the error
      of the peer: nothing is answered, nothing more is read, and no block moves. */
  lemma {:induction false} PeerErrorStops(s: Sender, rest: seq<AckEvent>)
    requires Inv(s) && s.phase == GetAck && !Exhausted(s)
    ensures var o := RunToIdle(s, [Bad] + rest);
      && o.s.err == Peer && o.s.phase == Idle && o.inbox == rest && o.sent == []
      && o.s.cursor == s.cursor && o.s.chunks == s.chunks && o.s.pending == s.pending && o.s.stream == s.stream
      && o.s.done == s.done
  {
    var inbox := [Bad] + rest;
    var o := Turn(s, inbox);
    TurnKeepsInv(s, inbox);
    assert inbox[1..] == rest;
    assert RunToIdle(o.s, o.inbox) == Outcome(o.s, o.inbox, []);
  }

  lemma TurnFrame(s: Sender, inbox: seq<AckEvent>)
    requires s.cfg.Valid() && s.cursor <= |s.chunks| && s.phase != Idle
    ensures var t := Turn(s, inbox).s; t.phase != SendOack && t.optionsParsed == s.optionsParsed
  {
    PhaseFrame(s);
    WriteDataFrame(s);
    hide AfterWriteData, Sends, Payload;
    if s.phase == GetAck {
      GetAckFrame(s, Timeout);
      if inbox != [] { GetAckFrame(s, inbox[0]); }
    }
    hide AfterGetAck;
  }

  lemma PhaseFrame(s: Sender)
    requires s.cfg.Valid() && s.cursor <= |s.chunks|
    ensures AfterWriteData(s).phase != SendOack && AfterWriteData(s).optionsParsed == s.optionsParsed
  {
    hide Payload, Sends, BufLen, EndsWindow;
  }

  /** No OACK is sent except by the state function for it. */
  lemma {:induction false} NoOack(s: Sender, inbox: seq<AckEvent>)
    requires Inv(s) && s.phase != SendOack
    ensures OackPacket !in RunToIdle(s, inbox).sent
    decreases |inbox|, Patience(s), Rank(s)
  {
    if s.phase != Idle {
      assert s.cfg.Valid() && s.cursor <= |s.chunks|;
      hide Inv, Turn, Patience, Rank;
      TurnKeepsInv(s, inbox);
      TurnDescends(s, inbox);
      TurnIsMove(s, inbox);
      TurnFrame(s, inbox);
      var o := Turn(s, inbox);
      NoOack(o.s, o.inbox);
    }
  }

  predicate IsSuffix(a: seq<AckEvent>, b: seq<AckEvent>) {
    |a| <= |b| && a == b[|b| - |a|..]
  }

  lemma SuffixBehind(end: seq<AckEvent>, mid: seq<AckEvent>, inbox: seq<AckEvent>)
    requires IsSuffix(end, mid) && (mid == inbox || (inbox != [] && mid == inbox[1..]))
    ensures IsSuffix(end, inbox)
  {}

  /** What a loop leaves of its script is a suffix of it. */
  lemma {:induction false} ReadsInOrder(s: Sender, inbox: seq<AckEvent>)
    requires Inv(s)
    ensures IsSuffix(RunToIdle(s, inbox).inbox, inbox)
    decreases |inbox|, Patience(s), Rank(s)
  {
    if s.phase != Idle {
      assert s.cfg.Valid() && s.cursor <= |s.chunks|;
      hide Inv, Turn, Patience, Rank;
      TurnKeepsInv(s, inbox);
      TurnDescends(s, inbox);
      TurnIsMove(s, inbox);
      var o := Turn(s, inbox);
      ReadsInOrder(o.s, o.inbox);
      SuffixBehind(RunToIdle(o.s, o.inbox).inbox, o.inbox, inbox);
      hide IsSuffix;
    }
  }

  /** An ACK of block 0 is among the inputs read. */
  ghost predicate ReadsReply(inbox: seq<AckEvent>, left: seq<AckEvent>) {
    exists i :: 0 <= i < |inbox| - |left| && inbox[i].Ack? && U16(inbox[i].num) == 0
  }

  /** While the reply to the OACK is awaited, no block goes out before it has been read. */
  lemma {:induction false} ReplyBeforeData(s: Sender, inbox: seq<AckEvent>)
    requires Inv(s) && s.phase == GetAck && s.txOack
    ensures var o := RunToIdle(s, inbox);
      (exists d :: d in o.sent && d.DataPacket?) ==> ReadsReply(inbox, o.inbox)
    decreases Patience(s), |inbox|
  {
    assert s.cfg.Valid() && s.cursor <= |s.chunks|;
    hide Inv, Turn, Patience, Rank, U16, Accepts;
    TurnKeepsInv(s, inbox);
    TurnDescends(s, inbox);
    TurnIsMove(s, inbox);
    ReplyTurn(s, inbox);
    var o := Turn(s, inbox);
    ReadsInOrder(o.s, o.inbox);
    if o.s.phase == GetAck {
      ReplyBeforeData(o.s, o.inbox);
      var end := RunToIdle(o.s, o.inbox);
      if ReadsReply(o.inbox, end.inbox) && inbox != [] {
        var i :| 0 <= i < |o.inbox| - |end.inbox| && o.inbox[i].Ack? && U16(o.inbox[i].num) == 0;
        assert inbox[i + 1] == o.inbox[i];
      }
    }
  }

  lemma ReplyTurn(s: Sender, inbox: seq<AckEvent>)
    requires Inv(s) && s.phase == GetAck && s.txOack
    ensures var o := Turn(s, inbox);
      || (o.s.phase == GetAck && o.s.txOack && Patience(o.s) < Patience(s) && !Exhausted(s))
      || o.s.phase == Idle
      || (inbox != [] && o.inbox == inbox[1..] && inbox[0].Ack? && U16(inbox[0].num) == 0)
  {
    assert s.cursor == 0;
    hide Inv;
  }

  /** What a call of `Write` does about the OACK: it is the first packet if and only if the call is the
      first one and options are to be acknowledged, it is never sent again, and then no block is sent
      unless an ACK of block 0 has been read, whatever else the network brings. */
  lemma {:induction false} OackLog(s: Sender, p: seq<byte>, inbox: seq<AckEvent>)
    requires Inv(s) && s.phase == Idle && s.err == NoErr && !s.closing
    ensures Inv(CallWrite(s, p))
    ensures var o := RunToIdle(CallWrite(s, p), inbox); var first := !s.optionsParsed && s.ackOpts;
      && (o.sent != [] && o.sent[0] == OackPacket <==> first)
      && (forall i :: 1 <= i < |o.sent| ==> o.sent[i] != OackPacket)
      && (first && (exists d :: d in o.sent && d.DataPacket?) ==> ReadsReply(inbox, o.inbox))
      && o.s.optionsParsed
  {
    CallsKeepInv(s, p);
    var s1 := CallWrite(s, p);
    KeepsParsed(s1, inbox);
    if s1.phase == SendOack {
      var o := Turn(s1, inbox);
      TurnKeepsInv(s1, inbox);
      assert o == Outcome(s1.(txOack := true, phase := GetAck), inbox, [OackPacket]);
      hide Inv, Turn;
      NoOack(o.s, o.inbox);
      ReplyBeforeData(o.s, o.inbox);
    } else {
      hide Inv, Turn;
      NoOack(s1, inbox);
    }
  }

  lemma {:induction false} KeepsParsed(s: Sender, inbox: seq<AckEvent>)
    requires Inv(s)
    ensures RunToIdle(s, inbox).s.optionsParsed == s.optionsParsed
    decreases |inbox|, Patience(s), Rank(s)
  {
    if s.phase != Idle {
      assert s.cfg.Valid() && s.cursor <= |s.chunks|;
      hide Inv, Turn, Patience, Rank;
      TurnKeepsInv(s, inbox);
      TurnDescends(s, inbox);
      TurnFrame(s, inbox);
      var o := Turn(s, inbox);
      KeepsParsed(o.s, o.inbox);
    }
  }

  /** A call reports the ERROR that it sends to the peer, and sends one if it gives up. */
  lemma {:induction false} ErrorLog(s: Sender, inbox: seq<AckEvent>)
    requires Inv(s) && s.err != MaxRetries
    ensures var o := RunToIdle(s, inbox); ErrorPacket in o.sent <==> o.s.err == MaxRetries
    decreases |inbox|, Patience(s), Rank(s)
  {
    if s.phase != Idle {
      TurnKeepsInv(s, inbox);
      TurnDescends(s, inbox);
      TurnIsMove(s, inbox);
      TurnErr(s, inbox);
      var o := Turn(s, inbox);
      if o.s.err == MaxRetries {
        assert RunToIdle(o.s, o.inbox) == Outcome(o.s, o.inbox, []);
      } else {
        hide Inv, Turn, Patience, Rank;
        ErrorLog(o.s, o.inbox);
      }
    }
  }

  lemma TurnErr(s: Sender, inbox: seq<AckEvent>)
    requires Inv(s) && s.phase != Idle && s.err != MaxRetries
    ensures var t := Turn(s, inbox).s;
      && (t.err == MaxRetries <==> s.phase == GetAck && Exhausted(s))
      && (t.err == MaxRetries ==> t.phase == Idle)
  {
    assert s.cfg.Valid() && s.cursor <= |s.chunks|;
    hide Inv;
    WriteDataFrame(s);
    hide AfterWriteData, Payload, Sends, BufLen, Accepts;
  }
}
