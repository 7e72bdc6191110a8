/** Sender and receiver joined by two order-preserving channels that may lose packets,
    duplicate them in place and delay them for any time. Streams, and so block numbers, are
    unbounded: the machines themselves only compare numbers modulo 65536. */
module Fifo {
  import opened Bytes
  import opened Transfer
  import opened Endpoints
  import S = SenderSpec
  import SL = SenderLaws
  import R = ReceiverSpec
  import RL = ReceiverLaws

  datatype System = System(s: S.Sender, r: R.Receiver, data: seq<Block>, acks: seq<nat>)

  datatype Step =
    | Send(call: S.Move)
    | TakeAck
    | Receive(move: R.Move)
    | TakeData
    | LoseData(i: nat) | DupData(i: nat)
    | LoseAck(i: nat) | DupAck(i: nat)

  /** Both ends have negotiated the same sizes; the acknowledgement of the request may
      still be in flight, any number of times. */
  ghost predicate Init(sys: System) {
    && Start(sys.s, sys.r)
    && sys.data == []
    && forall i :: 0 <= i < |sys.acks| ==> sys.acks[i] == 0
  }

  /** Packets come from the channels only; every other input is the environment's choice. */
  predicate Ready(sys: System, step: Step) {
    && sys.s.cfg.Valid() && sys.s.cursor <= |sys.s.chunks|
    && match step
       case Send(m) => S.Enabled(sys.s, m) && !(m.DoAck? && m.ev.Ack?)
       case TakeAck => sys.s.phase == S.GetAck && sys.acks != []
       case Receive(m) => R.Enabled(sys.r, m) && !(m.DoData? && m.ev.Data?)
       case TakeData => sys.r.phase == R.ReadData && sys.data != []
       case LoseData(i) => i < |sys.data|
       case DupData(i) => i < |sys.data|
       case LoseAck(i) => i < |sys.acks|
       case DupAck(i) => i < |sys.acks|
  }

  function Apply(sys: System, step: Step): System
    requires Ready(sys, step)
  {
    match step
    case Send(m) =>
      sys.(s := S.After(sys.s, m),
           data := sys.data + if m == S.DoStep && S.Sends(sys.s) then [S.SentBlock(sys.s)] else [])
    case TakeAck => sys.(s := S.AfterGetAck(sys.s, S.Ack(sys.acks[0])), acks := sys.acks[1..])
    case Receive(m) =>
      var o := R.After(sys.r, m);
      sys.(r := o.r, acks := sys.acks + o.acks)
    case TakeData =>
      var o := R.AfterReadData(sys.r, R.Data(sys.data[0]));
      sys.(r := o.r, data := sys.data[1..], acks := sys.acks + o.acks)
    case LoseData(i) => sys.(data := sys.data[..i] + sys.data[i + 1..])
    case DupData(i) => sys.(data := sys.data[..i + 1] + sys.data[i..])
    case LoseAck(i) => sys.(acks := sys.acks[..i] + sys.acks[i + 1..])
    case DupAck(i) => sys.(acks := sys.acks[..i + 1] + sys.acks[i..])
  }

  ghost predicate Next(sys: System, sys': System) {
    exists step :: Ready(sys, step) && sys' == Apply(sys, step)
  }

  ghost predicate IsRun(run: seq<System>) {
    && |run| > 0 && Init(run[0])
    && forall i :: 0 <= i < |run| - 1 ==> Next(run[i], run[i + 1])
  }

  // The invariant that links both ends and the packets in flight.

  /** The DATA packets not yet handled, oldest first. */
  function InFlight(sys: System): seq<Block> {
    (if sys.r.phase == R.AckData then [sys.r.rx] else []) + sys.data
  }

  /** Every packet carries the block it is numbered for, none is older than a window below
      the receiver, and none was overtaken by more than a window. */
  ghost predicate DataOk(data: seq<Block>, chunks: seq<seq<byte>>, count: nat, w: nat) {
    && (forall i :: 0 <= i < |data| ==>
          1 <= data[i].num <= |chunks| && data[i].payload == chunks[data[i].num - 1]
          && count < data[i].num + w)
    && (forall i, j :: 0 <= i < j < |data| ==> data[i].num < data[j].num + w)
  }

  ghost predicate AcksOk(acks: seq<nat>, lo: nat, hi: nat) {
    && (forall i :: 0 <= i < |acks| ==> lo <= acks[i] <= hi)
    && (forall i, j :: 0 <= i < j < |acks| ==> acks[i] <= acks[j])
  }

  ghost predicate CountersOk(s: S.Sender, r: R.Receiver) {
    && s.acked <= r.count <= |s.chunks| <= s.acked + s.cfg.windowsize
    && (s.phase == S.GetAck ==> s.cursor == |s.chunks|)
    && (s.done && s.phase != S.GetAck && s.err != MaxRetries && s.err != Peer ==>
          s.acked == |s.chunks|)
  }

  ghost predicate Linked(sys: System) {
    && S.Inv(sys.s) && R.Inv(sys.r) && SameSizes(sys.s, sys.r)
    && CountersOk(sys.s, sys.r)
    && AcceptedOk(sys.s, sys.r)
    && AcksOk(sys.acks, sys.s.acked, sys.r.count)
    && DataOk(InFlight(sys), sys.s.chunks, sys.r.count, sys.s.cfg.windowsize)
  }

  // How the channel predicates respond to each use of a channel.

  lemma DataPush(data: seq<Block>, chunks: seq<seq<byte>>, chunks': seq<seq<byte>>, count: nat, w: nat, b: Block)
    requires DataOk(data, chunks, count, w) && chunks <= chunks'
    requires 1 <= b.num <= |chunks'| && b.payload == chunks'[b.num - 1]
    requires count < b.num + w && |chunks| < b.num + w
    ensures DataOk(data + [b], chunks', count, w)
  {}

  /** The next block leaves the channel and the receiver moves up to it. */
  lemma DataAccept(data: seq<Block>, chunks: seq<seq<byte>>, count: nat, w: nat)
    requires DataOk(data, chunks, count, w) && data != [] && data[0].num == count + 1
    ensures DataOk(data[1..], chunks, count + 1, w)
  {}

  lemma DataTail(data: seq<Block>, chunks: seq<seq<byte>>, count: nat, w: nat)
    requires DataOk(data, chunks, count, w) && data != []
    ensures DataOk(data[1..], chunks, count, w)
  {}

  lemma DataDrop(data: seq<Block>, chunks: seq<seq<byte>>, count: nat, w: nat, i: nat)
    requires DataOk(data, chunks, count, w) && i < |data|
    ensures DataOk(data[..i] + data[i + 1..], chunks, count, w)
  {}

  lemma DataDup(data: seq<Block>, chunks: seq<seq<byte>>, count: nat, w: nat, i: nat)
    requires DataOk(data, chunks, count, w) && i < |data| && w >= 1
    ensures DataOk(data[..i + 1] + data[i..], chunks, count, w)
  {}

  lemma FlightLose(pre: seq<Block>, data: seq<Block>, i: nat)
    requires i < |data|
    ensures pre + (data[..i] + data[i + 1..])
         == (pre + data)[..|pre| + i] + (pre + data)[|pre| + i + 1..]
  {}

  lemma FlightDup(pre: seq<Block>, data: seq<Block>, i: nat)
    requires i < |data|
    ensures pre + (data[..i + 1] + data[i..])
         == (pre + data)[..|pre| + i + 1] + (pre + data)[|pre| + i..]
  {}

  lemma AcksPush(acks: seq<nat>, lo: nat, hi: nat, hi': nat)
    requires AcksOk(acks, lo, hi) && lo <= hi <= hi'
    ensures AcksOk(acks + [hi'], lo, hi') && AcksOk(acks, lo, hi')
  {}

  lemma AcksDrop(acks: seq<nat>, lo: nat, hi: nat, i: nat)
    requires AcksOk(acks, lo, hi) && i < |acks|
    ensures AcksOk(acks[..i] + acks[i + 1..], lo, hi)
  {}

  lemma AcksDup(acks: seq<nat>, lo: nat, hi: nat, i: nat)
    requires AcksOk(acks, lo, hi) && i < |acks|
    ensures AcksOk(acks[..i + 1] + acks[i..], lo, hi)
  {}

  /** An ACK read off an ordered channel is never older than a window. Equality of the 16-bit numbers
      is then exact, an accepted ACK rolls back by its true length, and the raw 16-bit comparison
      accepts it exactly when its number and the cursor have wrapped equally often. */
  lemma AckIsExact(sys: System)
    requires Linked(sys) && sys.s.phase == S.GetAck && sys.acks != []
    ensures var a := sys.acks[0]; var s := sys.s;
      && s.acked <= a <= s.cursor <= a + s.cfg.windowsize
      && (U16(a) == U16(s.cursor) <==> a == s.cursor)
      && (S.Accepts(s, a) ==> U16(s.cursor) - U16(a) == s.cursor - a)
      && (S.Accepts(s, a) <==> a / 0x1_0000 == s.cursor / 0x1_0000)
  {}

  /** So an ACK in order, from before the last wrap, is ignored: the sender does not roll back to the
      blocks that the receiver lacks, and has used up a try. */
  lemma WrappedAckIgnored(sys: System)
    requires Linked(sys) && sys.s.phase == S.GetAck && sys.acks != [] && !S.Exhausted(sys.s)
    ensures S.AfterGetAck(sys.s, S.Ack(sys.acks[0])) == sys.s.(tries := sys.s.tries + 1)
            <==> sys.acks[0] / 0x1_0000 < sys.s.cursor / 0x1_0000
  {
    AckIsExact(sys);
    if S.Accepts(sys.s, sys.acks[0]) {
      SL.AcceptEffect(sys.s, sys.acks[0]);
    }
  }

  /** The 16-bit distance is 1 for the true next block only. */
  lemma NextIsExact(sys: System)
    requires Linked(sys) && sys.r.phase == R.AckData
    ensures R.Diff(sys.r) == 1 <==> sys.r.rx.num == sys.r.count + 1
  {
    assert InFlight(sys)[0] == sys.r.rx;
  }

  lemma InitLinked(sys: System)
    requires Init(sys)
    ensures Linked(sys)
  {}

  lemma TakeAckCounters(sys: System)
    requires Linked(sys) && Ready(sys, TakeAck)
    ensures var s' := Apply(sys, TakeAck).s;
      && s'.chunks == sys.s.chunks && s'.cfg == sys.s.cfg
      && (s'.acked == sys.s.acked || s'.acked == sys.acks[0])
      && CountersOk(s', sys.r)
  {
    AckIsExact(sys);
    var a := sys.acks[0];
    if !S.Exhausted(sys.s) && S.Accepts(sys.s, a) {
      SL.AcceptEffect(sys.s, a);
    }
  }

  lemma TakeAckLinked(sys: System)
    requires Linked(sys) && Ready(sys, TakeAck)
    ensures Linked(Apply(sys, TakeAck))
  {
    TakeAckCounters(sys);
    SL.GetAckKeepsInv(sys.s, S.Ack(sys.acks[0]));
    var sys' := Apply(sys, TakeAck);
    assert InFlight(sys') == InFlight(sys);
  }

  /** A replay stays inside the ring, so the packet carries the right block. */
  lemma SentIsRight(sys: System)
    requires Linked(sys) && S.Sends(sys.s)
    ensures var s := sys.s; var s' := S.AfterWriteData(s);
      && s.chunks <= s'.chunks
      && s.acked <= s.cursor < |s'.chunks| <= s.acked + s.cfg.windowsize
      && S.Payload(s) == s'.chunks[s.cursor]
      && s'.acked == s.acked && s'.cfg == s.cfg
  {
    hide AcksOk, DataOk, AcceptedOk, R.Inv;
  }

  lemma WriteDataCounters(sys: System)
    requires Linked(sys) && sys.s.phase == S.WriteData
    ensures CountersOk(S.AfterWriteData(sys.s), sys.r)
  {
    hide AcksOk, DataOk, AcceptedOk, R.Inv;
    if S.Sends(sys.s) {
      SentIsRight(sys);
    }
  }

  lemma SentKeepsFlight(sys: System)
    requires Linked(sys) && S.Sends(sys.s)
    ensures DataOk(InFlight(Apply(sys, Send(S.DoStep))), S.AfterWriteData(sys.s).chunks,
                   sys.r.count, sys.s.cfg.windowsize)
  {
    SentIsRight(sys);
    FlightSend(sys);
    hide S.Inv, R.Inv, AcksOk, DataOk, AcceptedOk, S.AfterWriteData, S.Payload, InFlight;
    DataPush(InFlight(sys), sys.s.chunks, S.AfterWriteData(sys.s).chunks, sys.r.count, sys.s.cfg.windowsize,
             S.SentBlock(sys.s));
  }

  lemma SendLinked(sys: System)
    requires Linked(sys) && S.Sends(sys.s)
    ensures Linked(Apply(sys, Send(S.DoStep)))
  {
    SentIsRight(sys);
    hide S.Inv, R.Inv, AcksOk, DataOk, AcceptedOk, InFlight, S.AfterWriteData, S.BufLen, S.Payload;
    SL.WriteDataKeepsInv(sys.s);
    WriteDataCounters(sys);
    AcceptedFrame(sys.s, S.AfterWriteData(sys.s), sys.r);
    SentKeepsFlight(sys);
    hide S.SentBlock, CountersOk;
  }

  lemma StopLinked(sys: System)
    requires Linked(sys) && sys.s.phase == S.WriteData && !S.Sends(sys.s)
    ensures Linked(Apply(sys, Send(S.DoStep)))
  {
    var s' := S.AfterWriteData(sys.s);
    assert s' == sys.s.(phase := S.Idle) && sys.data + [] == sys.data;
    hide R.Inv, AcksOk, DataOk, AcceptedOk, S.AfterWriteData, S.Payload;
    SL.WriteDataKeepsInv(sys.s);
    WriteDataCounters(sys);
    AcceptedFrame(sys.s, s', sys.r);
    hide S.Inv, CountersOk, S.Sends;
    assert Apply(sys, Send(S.DoStep)) == sys.(s := s');
  }

  lemma WriteDataLinked(sys: System)
    requires Linked(sys) && sys.s.phase == S.WriteData
    ensures Linked(Apply(sys, Send(S.DoStep)))
  {
    if S.Sends(sys.s) {
      SendLinked(sys);
    } else {
      StopLinked(sys);
    }
  }

  lemma FlightSend(sys: System)
    requires Ready(sys, Send(S.DoStep)) && S.Sends(sys.s)
    ensures InFlight(Apply(sys, Send(S.DoStep))) == InFlight(sys) + [S.SentBlock(sys.s)]
  {
    var pre := if sys.r.phase == R.AckData then [sys.r.rx] else [];
    assert pre + (sys.data + [S.SentBlock(sys.s)]) == pre + sys.data + [S.SentBlock(sys.s)];
  }

  /** Application calls, the buffering of a write, the OACK, and getAck without an ACK. */
  lemma OtherSendLinked(sys: System, m: S.Move)
    requires Linked(sys) && Ready(sys, Send(m)) && !(m == S.DoStep && sys.s.phase == S.WriteData)
    ensures Linked(Apply(sys, Send(m)))
  {
    SL.MoveKeepsInv(sys.s, m);
    OtherSendCounters(sys.s, sys.r, m);
    var sys' := Apply(sys, Send(m));
    assert sys'.data == sys.data && sys'.r == sys.r;
    assert InFlight(sys') == InFlight(sys);
  }

  lemma OtherSendCounters(s: S.Sender, r: R.Receiver, m: S.Move)
    requires S.Inv(s) && CountersOk(s, r)
    requires S.Enabled(s, m) && !(m.DoAck? && m.ev.Ack?) && !(m == S.DoStep && s.phase == S.WriteData)
    ensures var s' := S.After(s, m);
      && s'.chunks == s.chunks && s'.cfg == s.cfg && s'.acked == s.acked
      && CountersOk(s', r)
  {
    match m
    case DoWrite(p) =>
    case DoClose =>
    case DoStep =>
    case DoAck(ev) =>
  }

  lemma FlightAccept(sys: System)
    requires Ready(sys, Receive(R.DoStep)) && sys.r.phase == R.AckData && R.Diff(sys.r) == 1
    ensures var sys' := Apply(sys, Receive(R.DoStep));
      && InFlight(sys) != [] && InFlight(sys)[0] == sys.r.rx && InFlight(sys') == InFlight(sys)[1..]
      && (sys'.acks == sys.acks || sys'.acks == sys.acks + [sys.r.count + 1])
  {
    assert sys.acks + [] == sys.acks;
  }

  lemma AcceptLinked(sys: System)
    requires Linked(sys) && sys.r.phase == R.AckData && R.Diff(sys.r) == 1
    ensures Linked(Apply(sys, Receive(R.DoStep)))
  {
    NextIsExact(sys);
    assert !sys.r.done;
    hide S.Inv, R.Inv, AcceptedOk, DataOk, AcksOk;
    RL.MoveKeepsInv(sys.r, R.DoStep);
    var c := sys.r.count;
    FlightAccept(sys);
    AcceptNext(sys.s, sys.r);
    DataAccept(InFlight(sys), sys.s.chunks, c, sys.s.cfg.windowsize);
    AcksPush(sys.acks, sys.s.acked, c, c + 1);
    hide InFlight, R.Diff;
  }

  lemma OtherReceiveLinked(sys: System, m: R.Move)
    requires Linked(sys) && Ready(sys, Receive(m))
    requires !(sys.r.phase == R.AckData && R.Diff(sys.r) == 1)
    ensures Linked(Apply(sys, Receive(m)))
  {
    hide S.Inv, R.Inv, DataOk, AcksOk;
    RL.MoveKeepsInv(sys.r, m);
    AcksPush(sys.acks, sys.s.acked, sys.r.count, sys.r.count);
    var sys' := Apply(sys, Receive(m));
    assert sys'.acks == sys.acks || sys'.acks == sys.acks + [sys.r.count];
    if sys.r.phase == R.AckData {
      assert InFlight(sys') == InFlight(sys)[1..];
      DataTail(InFlight(sys), sys.s.chunks, sys.r.count, sys.s.cfg.windowsize);
    } else {
      assert InFlight(sys') == InFlight(sys);
    }
  }

  lemma TakeDataEnds(sys: System)
    requires Linked(sys) && Ready(sys, TakeData)
    ensures var o := R.AfterReadData(sys.r, R.Data(sys.data[0]));
      && o.acks == [] && R.Inv(o.r) && o.r.cfg == sys.r.cfg && o.r.count == sys.r.count
      && CountersOk(sys.s, o.r) && AcceptedOk(sys.s, o.r)
  {}

  lemma FlightTake(sys: System)
    requires Ready(sys, TakeData)
    ensures InFlight(sys) == sys.data
    ensures InFlight(Apply(sys, TakeData)) == if R.Exhausted(sys.r) then sys.data[1..] else sys.data
  {}

  lemma TakeDataFlight(sys: System)
    requires Ready(sys, TakeData)
    requires DataOk(InFlight(sys), sys.s.chunks, sys.r.count, sys.s.cfg.windowsize)
    ensures DataOk(InFlight(Apply(sys, TakeData)), sys.s.chunks, sys.r.count, sys.s.cfg.windowsize)
  {
    FlightTake(sys);
    DataTail(sys.data, sys.s.chunks, sys.r.count, sys.s.cfg.windowsize);
  }

  lemma TakeDataLinked(sys: System)
    requires Linked(sys) && Ready(sys, TakeData)
    ensures Linked(Apply(sys, TakeData))
  {
    TakeDataEnds(sys);
    TakeDataFlight(sys);
    assert Apply(sys, TakeData).acks == sys.acks;
  }

  /** Losing a DATA packet, or doubling it in place, keeps the order of the rest. */
  lemma DataChannelLinked(sys: System, step: Step)
    requires Linked(sys) && Ready(sys, step) && (step.LoseData? || step.DupData?)
    ensures Linked(Apply(sys, step))
  {
    var flight := InFlight(sys);
    var pre := if sys.r.phase == R.AckData then [sys.r.rx] else [];
    if step.LoseData? {
      FlightLose(pre, sys.data, step.i);
      DataDrop(flight, sys.s.chunks, sys.r.count, sys.s.cfg.windowsize, |pre| + step.i);
    } else {
      FlightDup(pre, sys.data, step.i);
      DataDup(flight, sys.s.chunks, sys.r.count, sys.s.cfg.windowsize, |pre| + step.i);
    }
  }

  lemma AckChannelLinked(sys: System, step: Step)
    requires Linked(sys) && Ready(sys, step) && (step.LoseAck? || step.DupAck?)
    ensures Linked(Apply(sys, step))
  {
    if step.LoseAck? {
      AcksDrop(sys.acks, sys.s.acked, sys.r.count, step.i);
    } else {
      AcksDup(sys.acks, sys.s.acked, sys.r.count, step.i);
    }
    assert InFlight(Apply(sys, step)) == InFlight(sys);
  }

  lemma StepLinked(sys: System, step: Step)
    requires Linked(sys) && Ready(sys, step)
    ensures Linked(Apply(sys, step))
  {
    match step
    case Send(m) =>
      if m == S.DoStep && sys.s.phase == S.WriteData { WriteDataLinked(sys); } else { OtherSendLinked(sys, m); }
    case TakeAck => TakeAckLinked(sys);
    case Receive(m) =>
      if sys.r.phase == R.AckData && R.Diff(sys.r) == 1 { AcceptLinked(sys); } else { OtherReceiveLinked(sys, m); }
    case TakeData => TakeDataLinked(sys);
    case LoseData(_) => DataChannelLinked(sys, step);
    case DupData(_) => DataChannelLinked(sys, step);
    case LoseAck(_) => AckChannelLinked(sys, step);
    case DupAck(_) => AckChannelLinked(sys, step);
  }

  lemma {:induction false} RunLinked(run: seq<System>, i: nat)
    requires IsRun(run) && i < |run|
    ensures Linked(run[i])
  {
    hide Linked, S.After, R.After;
    if i == 0 {
      InitLinked(run[0]);
    } else {
      RunLinked(run, i - 1);
      assert Next(run[i - 1], run[(i - 1) + 1]);
      var step :| Ready(run[i - 1], step) && run[i] == Apply(run[i - 1], step);
      StepLinked(run[i - 1], step);
    }
  }

  /** Over an ordered channel a rollback goes back to the acknowledged block itself, and never past
      what the ring remembers. */
  lemma {:induction false} RollbackFits(run: seq<System>, i: nat)
    requires IsRun(run) && i < |run| && run[i].s.phase == S.GetAck && run[i].acks != []
    requires !S.Exhausted(run[i].s) && S.Accepts(run[i].s, run[i].acks[0])
    ensures var s := run[i].s; var s' := S.AfterGetAck(s, S.Ack(run[i].acks[0]));
      && s'.cursor == run[i].acks[0]
      && |s.chunks| - s'.cursor <= s.cfg.windowsize
      && forall k :: s'.cursor <= k < |s.chunks| ==> S.ReplayIndex(k, |s.chunks|, s.cfg.windowsize) == k
  {
    RunLinked(run, i);
    AckIsExact(run[i]);
    SL.AcceptEffect(run[i].s, run[i].acks[0]);
  }

  /** End-to-end safety: whatever is lost, doubled or late, and however often the 16-bit
      block number wraps, the receiver holds a prefix of what the sender was given. */
  lemma {:induction false} Safety(run: seq<System>, i: nat)
    requires IsRun(run) && i < |run|
    ensures run[i].r.accepted <= run[i].s.stream
  {
    RunLinked(run, i);
    AcceptedIsPrefix(run[i].s, run[i].r);
  }

  /** Completion: `done` at the receiver, and a nil `Close` at the sender, both mean that the
      receiver holds the whole stream as it was when `Close` was called. */
  lemma {:induction false} Completion(run: seq<System>, i: nat)
    requires IsRun(run) && i < |run|
    ensures run[i].r.done ==> run[i].s.closing && run[i].r.accepted == run[i].s.stream
    ensures ClosedNil(run[i].s) ==> run[i].r.done && run[i].r.accepted == run[i].s.stream
  {
    RunLinked(run, i);
    AcceptedIsPrefix(run[i].s, run[i].r);
  }
}
