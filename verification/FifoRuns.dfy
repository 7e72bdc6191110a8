/** Runs over ordered channels that show where a transfer stops short of what it could do. */
module FifoRuns {
  import opened Bytes
  import opened Transfer
  import opened Endpoints
  import opened Fifo
  import S = SenderSpec
  import SL = SenderLaws
  import R = ReceiverSpec
  import L = LossFree
  import T = Termination
  import D = Delivery

  /** There is a run from `sys0` to `sys`. */
  ghost predicate Reachable(sys0: System, sys: System) {
    exists run :: IsRun(run) && run[0] == sys0 && run[|run| - 1] == sys
  }

  lemma Reach(sys0: System, sys: System, step: Step)
    requires Reachable(sys0, sys) && Ready(sys, step)
    ensures Reachable(sys0, Apply(sys, step))
  {
    hide Init, S.After, R.After;
    var run: seq<System> :| IsRun(run) && run[0] == sys0 && run[|run| - 1] == sys;
    var sys' := Apply(sys, step);
    assert Next(sys, sys');
    hide Next, Apply;
    var run' := run + [sys'];
    forall k | 0 <= k < |run'| - 1 ensures Next(run'[k], run'[k + 1]) {
      if k < |run| - 1 {
        assert Next(run[k], run[k + 1]);
      } else {
        assert run'[k] == sys;
      }
    }
    assert IsRun(run') && run'[0] == sys0 && run'[|run'| - 1] == sys';
  }

  lemma LossFreeStep(t: L.Tally, t': L.Tally)
    requires L.Next(t, t')
    ensures Next(t.sys, t'.sys)
  {
    hide Apply;
    var step :| L.Reliable(step) && Ready(t.sys, step) && t' == L.Apply(t, step);
    assert t'.sys == Apply(t.sys, step);
  }

  /** A loss-free run is a run. */
  lemma {:induction false} LossFreeReach(t0: L.Tally, t: L.Tally)
    requires D.Reachable(t0, t)
    ensures Reachable(t0.sys, t.sys)
  {
    hide L.Next, Next;
    var run: seq<L.Tally> :| L.IsRun(run) && run[0] == t0 && run[|run| - 1] == t;
    var run' := seq(|run|, i requires 0 <= i < |run| => run[i].sys);
    forall k | 0 <= k < |run'| - 1 ensures Next(run'[k], run'[k + 1]) {
      assert L.Next(run[k], run[k + 1]);
      LossFreeStep(run[k], run[k + 1]);
    }
    assert IsRun(run');
    assert run'[0] == t0.sys && run'[|run'| - 1] == t.sys;
  }

  // A timeout that does no harm.

  lemma LastWaitDone(t: L.Tally)
    requires L.Inv(t) && D.LastWait(t.sys)
    ensures t.sys.r.done && t.sys.r.accepted == t.sys.s.stream
  {
    AcceptedIsPrefix(t.sys.s, t.sys.r);
  }

  /** One timeout, then the ACK, then the end. */
  lemma TimeoutThenAck(s: S.Sender)
    requires s.cfg.Valid() && s.cursor <= |s.chunks|
    requires s.phase == S.GetAck && s.closing && s.done && !s.txOack && s.tries == 0 && s.cfg.retransmit >= 2
    ensures var s1 := s.(tries := 1, err := TimedOut);
      && S.AfterGetAck(s, S.Timeout) == s1
      && S.AfterGetAck(s1, S.Ack(s.cursor)) == s1.(tries := 0, acked := s.cursor, phase := S.WriteData)
      && S.AfterWriteData(s1.(tries := 0, acked := s.cursor, phase := S.WriteData))
         == s1.(tries := 0, acked := s.cursor, phase := S.Idle)
  {
    SL.ExpectedEffect(s.(tries := 1, err := TimedOut));
  }

  lemma LastWaitParts(t: L.Tally)
    requires L.Inv(t) && D.LastWait(t.sys)
    ensures t.sys.s.tries == 0 && !t.sys.s.txOack
  {
    hide DataOk, AcksOk, AcceptedOk;
  }

  /** A timeout in the last wait of a transfer that is complete makes `Close` fail: for all sizes and
      every stream, written in any pieces, the receiver has it all and the sender reports a timeout. */
  lemma {:induction false} TimeoutSpoilsClose(t0: L.Tally, ps: seq<seq<byte>>)
    requires L.Init(t0) && (t0.sys.s.optionsParsed || ps != []) && t0.sys.s.cfg.retransmit >= 2
    ensures exists sys: System ::
      && Reachable(t0.sys, sys) && sys.r.done && sys.r.accepted == sys.s.stream == Flatten(ps)
      && sys.s.closing && sys.s.phase == S.Idle && sys.s.err == TimedOut
  {
    hide L.Inv, D.Reachable, Reachable, Flatten, S.Inv;
    var t := D.ClosesLast(t0, ps);
    LastWaitDone(t);
    LastWaitParts(t);
    D.InvParts(t);
    LossFreeReach(t0, t);
    TimeoutThenAck(t.sys.s);
    hide S.AfterGetAck, S.AfterWriteData;
    var wait := Send(S.DoAck(S.Timeout));
    Reach(t0.sys, t.sys, wait);
    var sys1 := Apply(t.sys, wait);
    assert sys1.acks == t.sys.acks;
    Reach(t0.sys, sys1, TakeAck);
    var sys2 := Apply(sys1, TakeAck);
    Reach(t0.sys, sys2, Send(S.DoStep));
    var sys3 := Apply(sys2, Send(S.DoStep));
  }

  // An ACK from before a wrap.

  /** A stream with more than `k` full blocks is being sent, and `k` ends a window. */
  ghost predicate Sending(s: S.Sender, stream: seq<byte>, k: nat) {
    && s.cfg.Valid() && D.Given(s) == stream && !s.closing && s.optionsParsed && s.phase != S.Idle
    && k % s.cfg.windowsize == 0 && 1 <= k && k * s.cfg.blksize <= |stream|
    && |s.chunks| <= k && (|s.chunks| == k ==> s.phase == S.GetAck)
  }

  /** On reliable channels a window begins at every multiple of its size. */
  lemma WindowStart(t: L.Tally)
    requires L.Inv(t) && t.sys.s.phase == S.WriteData && !t.sys.s.closing
    ensures var s := t.sys.s;
      && s.acked == t.acksSent * s.cfg.windowsize
      && s.window == s.cursor - s.acked < s.cfg.windowsize && s.cursor == |s.chunks| && !s.done
  {
    AcceptedIsPrefix(t.sys.s, t.sys.r);
    hide DataOk, AcksOk, AcceptedOk;
  }

  lemma LastOfWindow(c: nat, j: nat, w: nat)
    requires w >= 1 && j * w <= c < j * w + w && (c + 1) % w == 0
    ensures c + 1 == j * w + w
  {
    if c + 1 < j * w + w {
      ModUnique(c + 1, w, j, c + 1 - j * w);
    }
  }

  lemma SendingStep(t: L.Tally, stream: seq<byte>, k: nat)
    requires L.Inv(t) && Sending(t.sys.s, stream, k) && S.Enabled(t.sys.s, S.DoStep)
    ensures t.sys.s.cursor <= |t.sys.s.chunks| && Sending(S.After(t.sys.s, S.DoStep), stream, k)
  {
    var s := t.sys.s;
    D.InvParts(t);
    D.StepKeepsGiven(s);
    if s.phase == S.WriteData {
      WindowStart(t);
      hide L.Inv, S.Inv, D.Given;
      RoomForBlock(|s.chunks|, k, s.cfg.blksize);
      assert s.stream == stream by { StreamGiven(s); }
      SL.SendsFull(s);
      hide S.AfterWriteData, S.Sends, S.Payload;
      if |s.chunks| + 1 == k {
        LastOfWindow(|s.chunks|, t.acksSent, s.cfg.windowsize);
      }
    } else {
      hide L.Inv, S.Inv, D.Given;
    }
  }

  lemma StreamGiven(s: S.Sender)
    requires s.phase == S.WriteData && !s.closing
    ensures D.Given(s) == s.stream
  {}

  lemma RoomForBlock(c: nat, k: nat, size: nat)
    requires c < k
    ensures (c + 1) * size <= k * size
  {}

  lemma SendingAck(s: S.Sender, stream: seq<byte>, k: nat)
    requires Sending(s, stream, k) && s.phase == S.GetAck && !S.Exhausted(s) && |s.chunks| < k
    ensures Sending(S.AfterGetAck(s, S.Ack(s.cursor)), stream, k)
  {
    D.AckKeepsGiven(s);
    hide D.Given;
    SL.ExpectedEffect(s);
  }

  /** The ACK of block `k` is there to be taken. */
  lemma {:induction false} ReachesAck(t: L.Tally, t0: L.Tally, stream: seq<byte>, k: nat) returns (t': L.Tally)
    requires D.OnWay(t, t0) && Sending(t.sys.s, stream, k)
    ensures D.OnWay(t', t0) && Sending(t'.sys.s, stream, k)
    ensures |t'.sys.s.chunks| == k && t'.sys.acks == [k]
    decreases T.Measure(t.sys)
  {
    hide L.Inv, D.Reachable, S.After, S.AfterGetAck, S.Inv, Sending, T.Measure;
    D.InvParts(t);
    var s := t.sys.s;
    assert s.phase != S.Idle && |s.chunks| <= k && (|s.chunks| == k ==> s.phase == S.GetAck) by { SendingParts(s, stream, k); }
    if |s.chunks| == k && t.sys.acks != [] {
      t' := t;
    } else {
      if s.phase != S.GetAck {
        SendingStep(t, stream, k);
      } else if t.sys.acks != [] {
        SendingAck(s, stream, k);
      }
      hide D.OnWay;
      t' := D.SenderGoes(t, t0);
      t' := ReachesAck(t', t0, stream, k);
    }
  }

  lemma SendingParts(s: S.Sender, stream: seq<byte>, k: nat)
    requires Sending(s, stream, k)
    ensures s.phase != S.Idle && |s.chunks| <= k && (|s.chunks| == k ==> s.phase == S.GetAck)
  {}

  /** A window of full blocks is sent after the ACK of block `k`, which arrives once more. */
  lemma {:induction false} FillsWindow(sys0: System, sys: System, k: nat) returns (sys': System)
    requires Reachable(sys0, sys) && S.Inv(sys.s) && WindowAt(sys.s, k, S.WriteData) && sys.s.cursor < k + sys.s.cfg.windowsize
    ensures Reachable(sys0, sys') && S.Inv(sys'.s) && WindowAt(sys'.s, k, S.GetAck)
    ensures sys'.acks == sys.acks && sys'.s.cursor == k + sys'.s.cfg.windowsize && sys'.s.cfg == sys.s.cfg
    decreases k + sys.s.cfg.windowsize - sys.s.cursor
  {
    hide Reachable;
    FillStep(sys.s, k);
    SL.WriteDataKeepsInv(sys.s);
    var step := Send(S.DoStep);
    assert Ready(sys, step);
    hide S.Inv, S.AfterWriteData, S.Sends;
    Reach(sys0, sys, step);
    sys' := Apply(sys, step);
    if sys'.s.phase == S.WriteData {
      sys' := FillsWindow(sys0, sys', k);
    }
  }

  /** Block `k` was the last one acknowledged, and the stream has a full window from there. */
  predicate WindowAt(s: S.Sender, k: nat, phase: S.Phase) {
    && s.cfg.Valid() && s.phase == phase && s.acked == k && s.cursor == |s.chunks|
    && !s.closing && s.err == NoErr && s.tries == 0
    && (k + s.cfg.windowsize) * s.cfg.blksize <= |s.stream|
  }

  lemma FillStep(s: S.Sender, k: nat)
    requires S.Inv(s) && WindowAt(s, k, S.WriteData) && s.cursor < k + s.cfg.windowsize
    ensures var s' := S.AfterWriteData(s);
      && s'.cfg == s.cfg && s'.cursor == s.cursor + 1
      && if s'.cursor < k + s.cfg.windowsize then WindowAt(s', k, S.WriteData) else WindowAt(s', k, S.GetAck)
  {
    RoomForBlock(|s.chunks|, k + s.cfg.windowsize, s.cfg.blksize);
    SL.SendsFull(s);
    assert s.window == s.cursor - s.acked;
    hide S.Inv, S.AfterWriteData;
  }

  /** The start of the window in which the 16-bit block number wraps. */
  function WrapStart(w: nat): (k: nat)
    requires 1 <= w <= 0xFFFF
  {
    0xFFFF / w * w
  }

  lemma WrapsInside(w: nat)
    requires 1 <= w <= 0xFFFF
    ensures 1 <= WrapStart(w) < 0x1_0000 <= WrapStart(w) + w && WrapStart(w) % w == 0
  {
    var q := 0xFFFF / w;
    assert 0xFFFF == q * w + 0xFFFF % w;
    ModUnique(q * w, w, q, 0);
    assert q >= 1 ==> q * w >= w;
  }

  /** Block `k` is the last of a window, and another window of full blocks follows it. */
  predicate WindowAfter(k: nat, cfg: Config, len: nat) {
    cfg.Valid() && 1 <= k && k % cfg.windowsize == 0 && (k + cfg.windowsize) * cfg.blksize <= len
  }

  /** The stream is written in one call. */
  lemma StartsSending(t0: L.Tally, stream: seq<byte>, k: nat) returns (t: L.Tally)
    requires L.Init(t0) && WindowAfter(k, t0.sys.s.cfg, |stream|)
    ensures D.OnWay(t, t0) && Sending(t.sys.s, stream, k)
  {
    D.StartsOnWay(t0);
    var call := Send(S.DoWrite(stream));
    var s := t0.sys.s;
    assert s == S.Fresh(s.cfg, s.optionsParsed, s.ackOpts) && Ready(t0.sys, call);
    hide L.Init, D.OnWay, L.Inv, WindowAfter, Sending;
    CallStartsSending(s, stream, k);
    hide S.After, S.Fresh;
    D.Go(t0, call, t0);
    t := L.Apply(t0, call);
  }

  lemma CallStartsSending(s: S.Sender, stream: seq<byte>, k: nat)
    requires s == S.Fresh(s.cfg, s.optionsParsed, s.ackOpts) && WindowAfter(k, s.cfg, |stream|)
    ensures S.Enabled(s, S.DoWrite(stream)) && Sending(S.After(s, S.DoWrite(stream)), stream, k)
  {
    RoomFirst(k, s.cfg.windowsize, s.cfg.blksize);
    D.WriteCalled(s, stream);
    hide D.Given;
    assert [] + stream == stream;
  }

  lemma Acked(s: S.Sender, stream: seq<byte>, k: nat)
    requires S.Inv(s) && s.cursor == |s.chunks| == k && s.err == NoErr && !S.Exhausted(s)
    requires Sending(s, stream, k) && WindowAfter(k, s.cfg, |stream|)
    ensures WindowAt(S.AfterGetAck(s, S.Ack(k)), k, S.WriteData)
    ensures S.AfterGetAck(s, S.Ack(k)).cfg == s.cfg && S.AfterGetAck(s, S.Ack(k)).cursor == k
  {
    SL.ExpectedEffect(s);
    assert s.stream + [] == s.stream;
  }

  /** The ACK that ends a window is doubled, and taken once. */
  lemma TakesOneOfTwo(sys0: System, sys: System, k: nat) returns (sys': System)
    requires Reachable(sys0, sys) && S.Inv(sys.s) && sys.s.phase == S.GetAck && sys.acks == [k]
    requires WindowAt(S.AfterGetAck(sys.s, S.Ack(k)), k, S.WriteData)
    ensures Reachable(sys0, sys') && sys'.acks == [k] && S.Inv(sys'.s) && sys'.s == S.AfterGetAck(sys.s, S.Ack(k))
  {
    SL.GetAckKeepsInv(sys.s, S.Ack(k));
    assert Ready(sys, DupAck(0));
    hide Reachable, S.Inv, S.AfterGetAck, WindowAt;
    Reach(sys0, sys, DupAck(0));
    var sys1 := Apply(sys, DupAck(0));
    assert sys1.acks == [k, k];
    Reach(sys0, sys1, TakeAck);
    sys' := Apply(sys1, TakeAck);
  }

  /** The sender waits for the ACK of block `k`, the last of a window, and it is there. */
  lemma WaitsForAck(t0: L.Tally, stream: seq<byte>, k: nat) returns (t: L.Tally)
    requires L.Init(t0) && WindowAfter(k, t0.sys.s.cfg, |stream|)
    ensures Reachable(t0.sys, t.sys) && S.Inv(t.sys.s) && t.sys.s.cfg == t0.sys.s.cfg
    ensures t.sys.s.phase == S.GetAck && !S.Exhausted(t.sys.s) && t.sys.acks == [k]
    ensures WindowAt(S.AfterGetAck(t.sys.s, S.Ack(k)), k, S.WriteData)
    ensures S.AfterGetAck(t.sys.s, S.Ack(k)).cursor == k && S.AfterGetAck(t.sys.s, S.Ack(k)).cfg == t0.sys.s.cfg
  {
    hide L.Init, L.Inv, D.Reachable, Reachable, S.Inv, S.AfterGetAck, S.Exhausted, WindowAt, WindowAfter, Sending;
    t := StartsSending(t0, stream, k);
    t := ReachesAck(t, t0, stream, k);
    assert L.Inv(t) && D.Reachable(t0, t) && t.sys.s.cfg == t0.sys.s.cfg;
    hide D.OnWay;
    D.InvParts(t);
    LossFreeReach(t0, t);
    SendingParts(t.sys.s, stream, k);
    assert t.sys.s.phase == S.GetAck;
    Acked(t.sys.s, stream, k);
  }

  lemma RoomFirst(k: nat, w: nat, b: nat)
    ensures k * b <= (k + w) * b
  {}

  /** An ACK in flight twice, which has not overtaken any other, can meet a sender that has wrapped:
      for every window size and every stream that is long enough, there is a run in which an ACK of an
      earlier block, first in its channel, is ignored. */
  lemma {:induction false} WrapIgnoresAck(t0: L.Tally, stream: seq<byte>)
    requires L.Init(t0)
    requires |stream| >= (0xFFFF + t0.sys.s.cfg.windowsize) * t0.sys.s.cfg.blksize
    ensures exists sys: System ::
      && Reachable(t0.sys, sys) && sys.s.phase == S.GetAck && !S.Exhausted(sys.s)
      && sys.acks != [] && sys.acks[0] < sys.s.cursor
      && S.AfterGetAck(sys.s, S.Ack(sys.acks[0])) == sys.s.(tries := 1)
  {
    var w, b := t0.sys.s.cfg.windowsize, t0.sys.s.cfg.blksize;
    var k := WrapStart(w);
    WrapsInside(w);
    assert (k + w) * b <= |stream| by { RoomUpTo(k, w, b, |stream|); }
    assert t0.sys.s.cfg.retransmit >= 1;
    hide WrapStart, L.Init, Reachable, S.Inv, S.AfterGetAck;
    var t := WaitsForAck(t0, stream, k);
    var sys1 := TakesOneOfTwo(t0.sys, t.sys, k);
    var sys := FillsWindow(t0.sys, sys1, k);
    Wraps(sys, k);
  }

  lemma RoomUpTo(k: nat, w: nat, b: nat, len: nat)
    requires k <= 0xFFFF && len >= (0xFFFF + w) * b
    ensures (k + w) * b <= len
  {}

  lemma Wraps(sys: System, k: nat)
    requires WindowAt(sys.s, k, S.GetAck) && sys.acks == [k] && !S.Exhausted(sys.s)
    requires k < 0x1_0000 <= sys.s.cursor == k + sys.s.cfg.windowsize
    ensures S.AfterGetAck(sys.s, S.Ack(k)) == sys.s.(tries := 1)
  {}
}
