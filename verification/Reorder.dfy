/** Sender and receiver joined by a network that may lose, double, delay and reorder at will:
    every packet ever sent can be delivered at any later time, any number of times. */
module Reorder {
  import opened Bytes
  import opened Transfer
  import opened Endpoints
  import S = SenderSpec
  import SL = SenderLaws
  import R = ReceiverSpec
  import RL = ReceiverLaws

  datatype System = System(s: S.Sender, r: R.Receiver, data: set<Block>, acks: set<nat>)

  datatype Step = Send(call: S.Move) | Receive(move: R.Move)

  ghost predicate Init(sys: System) {
    && Start(sys.s, sys.r)
    && sys.data == {} && sys.acks <= {0}
  }

  /** A packet can be delivered when it has been sent at some time. */
  predicate Ready(sys: System, step: Step) {
    && sys.s.cfg.Valid() && sys.s.cursor <= |sys.s.chunks|
    && match step
       case Send(m) => S.Enabled(sys.s, m) && (m.DoAck? && m.ev.Ack? ==> m.ev.num in sys.acks)
       case Receive(m) => R.Enabled(sys.r, m) && (m.DoData? && m.ev.Data? ==> m.ev.block in sys.data)
  }

  function Apply(sys: System, step: Step): System
    requires Ready(sys, step)
  {
    match step
    case Send(m) =>
      sys.(s := S.After(sys.s, m),
           data := sys.data + if m == S.DoStep && S.Sends(sys.s) then {S.SentBlock(sys.s)} else {})
    case Receive(m) =>
      var o := R.After(sys.r, m);
      sys.(r := o.r, acks := sys.acks + set a | a in o.acks)
  }

  ghost predicate Next(sys: System, sys': System) {
    exists step :: Ready(sys, step) && sys' == Apply(sys, step)
  }

  ghost predicate IsRun(run: seq<System>) {
    && |run| > 0 && Init(run[0])
    && forall i :: 0 <= i < |run| - 1 ==> Next(run[i], run[i + 1])
  }

  /** A packet is harmless: it carries the block it is numbered for, or the receiver is
      already at or past that number. */
  ghost predicate Harmless(b: Block, chunks: seq<seq<byte>>, count: nat) {
    && 1 <= b.num <= |chunks|
    && (b.payload == chunks[b.num - 1] || b.num <= count)
  }

  ghost predicate DataOk(data: set<Block>, chunks: seq<seq<byte>>, count: nat) {
    forall b :: b in data ==> Harmless(b, chunks, count)
  }

  ghost predicate CountersOk(s: S.Sender, r: R.Receiver) {
    && SameSizes(s, r)
    && s.acked <= r.count <= |s.chunks| <= r.count + s.cfg.windowsize
  }

  ghost predicate Linked(sys: System) {
    && S.Inv(sys.s) && R.Inv(sys.r)
    && CountersOk(sys.s, sys.r)
    && AcceptedOk(sys.s, sys.r)
    && (forall a :: a in sys.acks ==> a <= sys.r.count)
    && DataOk(sys.data, sys.s.chunks, sys.r.count)
    && (sys.r.phase == R.AckData ==> sys.r.rx in sys.data)
  }

  /** The property holds while no block number has wrapped. */
  predicate Short(sys: System) {
    |sys.s.chunks| < 0x1_0000
  }

  lemma InitLinked(sys: System)
    requires Init(sys)
    ensures Linked(sys)
  {}

  /** An accepted ACK, however old, puts the sender exactly where the ACK says. */
  lemma AckMoves(sys: System, a: nat)
    requires Linked(sys) && Short(sys) && sys.s.phase == S.GetAck && a in sys.acks
    ensures var s' := S.AfterGetAck(sys.s, S.Ack(a));
      && s'.chunks == sys.s.chunks && s'.cfg == sys.s.cfg
      && (s'.acked == sys.s.acked || s'.acked == s'.cursor == a)
  {
    if !S.Exhausted(sys.s) && S.Accepts(sys.s, a) {
      SL.AcceptEffect(sys.s, a);
    }
  }

  /** A rewind past the ring's memory can replay a wrong block, but only under a number the
      receiver has already passed. */
  lemma SentIsHarmless(sys: System)
    requires Linked(sys) && S.Sends(sys.s)
    ensures var s' := S.AfterWriteData(sys.s);
      && sys.s.chunks <= s'.chunks && s'.acked == sys.s.acked && s'.cfg == sys.s.cfg
      && CountersOk(s', sys.r)
      && Harmless(S.SentBlock(sys.s), s'.chunks, sys.r.count)
  {
    var s := sys.s;
    if s.cursor < |s.chunks| {
    }
  }

  lemma DataGrow(data: set<Block>, chunks: seq<seq<byte>>, chunks': seq<seq<byte>>, count: nat, b: Block)
    requires DataOk(data, chunks, count) && chunks <= chunks' && Harmless(b, chunks', count)
    ensures DataOk(data + {b}, chunks', count)
  {}

  lemma WriteDataLinked(sys: System)
    requires Linked(sys) && sys.s.phase == S.WriteData
    ensures Linked(Apply(sys, Send(S.DoStep)))
  {
    assert sys.s.cfg.Valid() && sys.s.cursor <= |sys.s.chunks|;
    hide S.Inv, R.Inv, DataOk, Harmless, AcceptedOk, S.Payload, S.BufLen;
    SL.WriteDataKeepsInv(sys.s);
    var s' := S.AfterWriteData(sys.s);
    if S.Sends(sys.s) {
      hide S.AfterWriteData;
      SentIsHarmless(sys);
      DataGrow(sys.data, sys.s.chunks, s'.chunks, sys.r.count, S.SentBlock(sys.s));
      AcceptedFrame(sys.s, s', sys.r);
    } else {
      AcceptedFrame(sys.s, s', sys.r);
      assert Apply(sys, Send(S.DoStep)).data == sys.data;
    }
  }

  lemma SendLinked(sys: System, m: S.Move)
    requires Linked(sys) && Short(sys) && Ready(sys, Send(m))
    requires !(m == S.DoStep && sys.s.phase == S.WriteData)
    ensures Linked(Apply(sys, Send(m)))
  {
    SL.MoveKeepsInv(sys.s, m);
    SendKeeps(sys, m);
    hide S.Inv, R.Inv, S.After;
  }

  /** Nothing but `writeData` touches the blocks, and `acked` only moves to a received ACK. */
  lemma SendKeeps(sys: System, m: S.Move)
    requires Linked(sys) && Short(sys) && Ready(sys, Send(m))
    requires !(m == S.DoStep && sys.s.phase == S.WriteData)
    ensures var s' := S.After(sys.s, m);
      && s'.chunks == sys.s.chunks && s'.cfg == sys.s.cfg && s'.acked <= sys.r.count
  {
    hide R.Inv, DataOk, AcceptedOk;
    match m
    case DoWrite(_) =>
    case DoClose =>
    case DoStep =>
    case DoAck(ev) => if ev.Ack? { AckMoves(sys, ev.num); }
  }

  /** Below 65536 blocks only the true next block has distance 1. */
  lemma NextIsExact(sys: System)
    requires Linked(sys) && Short(sys) && sys.r.phase == R.AckData && R.Diff(sys.r) == 1
    ensures sys.r.rx.num == sys.r.count + 1 && sys.r.rx.payload == sys.s.chunks[sys.r.count]
  {
    assert Harmless(sys.r.rx, sys.s.chunks, sys.r.count);
  }

  lemma AcceptLinked(sys: System)
    requires Linked(sys) && Short(sys) && sys.r.phase == R.AckData && R.Diff(sys.r) == 1
    ensures Linked(Apply(sys, Receive(R.DoStep)))
  {
    NextIsExact(sys);
    RL.MoveKeepsInv(sys.r, R.DoStep);
    AcceptNext(sys.s, sys.r);
  }

  lemma ReceiveLinked(sys: System, m: R.Move)
    requires Linked(sys) && Ready(sys, Receive(m))
    requires !(sys.r.phase == R.AckData && R.Diff(sys.r) == 1)
    ensures Linked(Apply(sys, Receive(m)))
  {
    hide S.Inv, R.Inv, DataOk;
    RL.MoveKeepsInv(sys.r, m);
  }

  lemma StepLinked(sys: System, step: Step)
    requires Linked(sys) && Short(sys) && Ready(sys, step)
    ensures Linked(Apply(sys, step))
  {
    match step
    case Send(m) =>
      if m == S.DoStep && sys.s.phase == S.WriteData { WriteDataLinked(sys); } else { SendLinked(sys, m); }
    case Receive(m) =>
      if sys.r.phase == R.AckData && R.Diff(sys.r) == 1 { AcceptLinked(sys); } else { ReceiveLinked(sys, m); }
  }

  /** A run that is short at the end was short throughout. */
  lemma StepGrows(sys: System, step: Step)
    requires Ready(sys, step)
    ensures Short(Apply(sys, step)) ==> Short(sys)
  {
    if step.Send? {
      SL.MoveGrows(sys.s, step.call);
    }
  }

  lemma {:induction false} RunLinked(run: seq<System>, i: nat)
    requires IsRun(run) && i < |run| && Short(run[i])
    ensures Linked(run[i])
  {
    hide S.Inv, R.Inv, DataOk, CountersOk, AcceptedOk, S.After, R.After;
    if i == 0 {
      InitLinked(run[0]);
    } else {
      assert Next(run[i - 1], run[(i - 1) + 1]);
      var step :| Ready(run[i - 1], step) && run[i] == Apply(run[i - 1], step);
      StepGrows(run[i - 1], step);
      RunLinked(run, i - 1);
      StepLinked(run[i - 1], step);
    }
  }

  /** Safety without any ordering: in a transfer of fewer than 65536 blocks every DATA packet
      in the network is harmless, the receiver holds a prefix of the stream, and when it says
      `done` that prefix is the whole closed stream. */
  lemma {:induction false} Safety(run: seq<System>, i: nat)
    requires IsRun(run) && i < |run| && Short(run[i])
    ensures DataOk(run[i].data, run[i].s.chunks, run[i].r.count)
    ensures run[i].r.accepted <= run[i].s.stream
    ensures run[i].r.done ==> run[i].s.closing && run[i].r.accepted == run[i].s.stream
  {
    RunLinked(run, i);
    AcceptedIsPrefix(run[i].s, run[i].r);
  }
}
