/** When a `Close` that returns nil can be believed although the network reorders packets. */
module ReorderCompletion {
  import opened Bytes
  import opened Transfer
  import opened Endpoints
  import opened Reorder
  import S = SenderSpec
  import SL = SenderLaws
  import R = ReceiverSpec

  // While rewinds stay within the ring.

  /** The last accepted ACK did not rewind past what the ring remembers: the check that the program
      does not make before it rewinds. */
  predicate InRing(s: S.Sender) {
    |s.chunks| <= s.acked + s.cfg.windowsize
  }

  /** The sender only waits after its last block, and is only through with the short block when
      that block itself was acknowledged. */
  ghost predicate WaitsAtHead(s: S.Sender) {
    && (s.phase == S.GetAck ==> s.cursor == |s.chunks|)
    && (s.done && s.phase != S.GetAck && s.err != MaxRetries && s.err != Peer ==> s.acked == |s.chunks|)
  }

  lemma WaitsStep(s: S.Sender, m: S.Move)
    requires S.Inv(s) && S.Enabled(s, m) && InRing(s) && WaitsAtHead(s)
    ensures WaitsAtHead(S.After(s, m))
  {
    match m
    case DoWrite(_) =>
    case DoClose =>
    case DoAck(ev) =>
      if ev.Ack? && !S.Exhausted(s) && S.Accepts(s, ev.num) {
        SL.AcceptEffect(s, ev.num);
      }
    case DoStep =>
      if s.phase == S.WriteData {
        WaitsWriteData(s);
        hide S.AfterWriteData, S.Inv;
      }
  }

  lemma WaitsWriteData(s: S.Sender)
    requires S.Inv(s) && s.phase == S.WriteData && InRing(s) && WaitsAtHead(s)
    ensures WaitsAtHead(S.AfterWriteData(s))
  {
    hide Flatten;
  }

  lemma {:induction false} RunWaits(run: seq<System>, i: nat)
    requires IsRun(run) && i < |run| && Short(run[i])
    requires forall j :: 0 <= j < i ==> InRing(run[j].s)
    ensures WaitsAtHead(run[i].s)
  {
    hide S.After, R.After, WaitsAtHead, InRing, S.Inv, DataOk, CountersOk, AcceptedOk;
    if i == 0 {
      assert WaitsAtHead(run[0].s) by { StartWaits(run[0]); }
    } else {
      assert Next(run[i - 1], run[(i - 1) + 1]);
      var step :| Ready(run[i - 1], step) && run[i] == Apply(run[i - 1], step);
      StepGrows(run[i - 1], step);
      RunLinked(run, i - 1);
      RunWaits(run, i - 1);
      if step.Send? {
        WaitsStep(run[i - 1].s, step.call);
      }
    }
  }

  lemma StartWaits(sys: System)
    requires Init(sys)
    ensures WaitsAtHead(sys.s)
  {}

  /** Completion without any ordering, as long as no accepted ACK rewinds past the ring: then a
      `Close` that returns nil does mean that the receiver has the whole stream. */
  lemma {:induction false} CompletionInRing(run: seq<System>, i: nat)
    requires IsRun(run) && i < |run| && Short(run[i])
    requires forall j :: 0 <= j < i ==> InRing(run[j].s)
    ensures ClosedNil(run[i].s) ==> run[i].r.done && run[i].r.accepted == run[i].s.stream
  {
    RunLinked(run, i);
    RunWaits(run, i);
    AcceptedIsPrefix(run[i].s, run[i].r);
  }

  lemma Extend(run: seq<System>, step: Step)
    requires IsRun(run) && Ready(run[|run| - 1], step)
    ensures IsRun(run + [Apply(run[|run| - 1], step)])
  {
    var last := run[|run| - 1];
    var run' := run + [Apply(last, step)];
    forall k | 0 <= k < |run'| - 1 ensures Next(run'[k], run'[k + 1]) {
      if k < |run| - 1 {
        assert Next(run[k], run[k + 1]);
      } else {
        assert run'[k] == last;
      }
    }
  }

  ghost predicate Reachable(sys: System) {
    exists run :: IsRun(run) && run[|run| - 1] == sys
  }

  lemma Reach(sys: System, step: Step, sys': System)
    requires Reachable(sys) && Ready(sys, step) && Apply(sys, step) == sys'
    ensures Reachable(sys')
  {
    var run: seq<System> :| IsRun(run) && run[|run| - 1] == sys;
    Extend(run, step);
  }

  // A transfer that fits in one window never leaves the ring.

  lemma {:induction false} RunGrows(run: seq<System>, j: nat, i: nat)
    requires IsRun(run) && j <= i < |run|
    ensures run[j].s.cfg == run[i].s.cfg && |run[j].s.chunks| <= |run[i].s.chunks|
    decreases i - j
  {
    hide S.After, R.After, S.Fresh, R.Fresh;
    if j < i {
      RunGrows(run, j, i - 1);
      assert Next(run[i - 1], run[(i - 1) + 1]);
      var step :| Ready(run[i - 1], step) && run[i] == Apply(run[i - 1], step);
      if step.Send? {
        SL.MoveGrows(run[i - 1].s, step.call);
      }
    }
  }

  /** A stream is never cut into more blocks than it has. */
  lemma BlocksFit(s: S.Sender)
    requires S.Inv(s)
    ensures |s.chunks| <= |s.stream| / s.cfg.blksize + 1
  {
    var n, b := |s.chunks|, s.cfg.blksize;
    assert b >= 1 && Blocked(s.chunks, b) && |Flatten(s.chunks)| <= |s.stream|;
    hide S.Inv, Flatten, Blocked;
    if n > 0 {
      BlocksLength(s.chunks, b, n - 1);
      FlattenPrefix(s.chunks, n - 1);
      AtMostQuotient(n - 1, |s.stream|, b);
    }
  }

  lemma AtMostQuotient(k: nat, x: nat, m: nat)
    requires m >= 1 && k * m <= x
    ensures k <= x / m
  {
    var q := x / m;
    assert x < (q + 1) * m;
    assert k >= q + 1 ==> k * m >= (q + 1) * m;
  }

  /** The number of blocks of a stream, the short last one included. */
  function BlocksOf(cfg: Config, stream: seq<byte>): nat
    requires cfg.Valid()
  {
    |stream| / cfg.blksize + 1
  }

  /** A transfer of at most a window: a nil `Close` can be believed. */
  lemma {:induction false} OneWindowCompletes(sys: System)
    requires Reachable(sys) && sys.s.cfg.Valid() && ClosedNil(sys.s)
    requires BlocksOf(sys.s.cfg, sys.s.stream) <= sys.s.cfg.windowsize
    ensures sys.r.done && sys.r.accepted == sys.s.stream
  {
    hide S.Inv, R.Inv, Next, ClosedNil;
    var run: seq<System> :| IsRun(run) && run[|run| - 1] == sys;
    var i := |run| - 1;
    SenderRunInv(run, i);
    BlocksFit(sys.s);
    forall j | 0 <= j < i ensures InRing(run[j].s) {
      RunGrows(run, j, i);
    }
    CompletionInRing(run, i);
  }

  /** The sender keeps its invariant in every run, however long. */
  lemma {:induction false} SenderRunInv(run: seq<System>, i: nat)
    requires IsRun(run) && i < |run|
    ensures S.Inv(run[i].s)
  {
    hide S.Inv, S.After, R.After;
    if i == 0 {
      SL.FreshInv(run[0].s.cfg, run[0].s.optionsParsed, run[0].s.ackOpts);
    } else {
      SenderRunInv(run, i - 1);
      assert Next(run[i - 1], run[(i - 1) + 1]);
      var step :| Ready(run[i - 1], step) && run[i] == Apply(run[i - 1], step);
      if step.Send? {
        SL.MoveKeepsInv(run[i - 1].s, step.call);
      }
    }
  }

  // A transfer of more than a window can be lost, whatever its sizes and its contents.

  lemma ReachableLinked(sys: System)
    requires Reachable(sys) && Short(sys)
    ensures Linked(sys)
  {
    var run: seq<System> :| IsRun(run) && run[|run| - 1] == sys;
    RunLinked(run, |run| - 1);
  }

  /** The sender has put out `k` full blocks of a stream that was written at once. */
  ghost predicate SenderAt(s: S.Sender, cfg: Config, stream: seq<byte>, k: nat, phase: S.Phase) {
    && s.cfg == cfg && s.stream == stream && |s.chunks| == s.cursor == k
    && s.phase == phase && s.err == NoErr && s.tries == 0
    && !s.closing && !s.txOack && s.optionsParsed && !s.done
  }

  /** The receiver, willing to wait twice and asked for more than the stream, has `k` blocks. */
  ghost predicate ReceiverAt(r: R.Receiver, k: nat, want: nat) {
    && r.cfg.retransmit == 2 && r.count == k && r.phase == R.ReadData && r.tries <= 1 && r.want == want
  }

  /** Every block up to `k` has been taken and acknowledged, and no ACK has reached the sender that
      it did not wait for. */
  ghost predicate Caught(sys: System, cfg: Config, stream: seq<byte>, k: nat) {
    && Reachable(sys) && S.Inv(sys.s)
    && SenderAt(sys.s, cfg, stream, k, S.WriteData)
    && ReceiverAt(sys.r, k, |stream| + 1)
    && forall a :: 0 <= a <= k ==> a in sys.acks
  }

  lemma CutsFull(s: S.Sender, cfg: Config, stream: seq<byte>, k: nat)
    requires S.Inv(s) && SenderAt(s, cfg, stream, k, S.WriteData) && (k + 1) * cfg.blksize <= |stream|
    ensures S.Sends(s) && |S.SentBlock(s).payload| == cfg.blksize && S.SentBlock(s).num == k + 1
    ensures var s' := S.AfterWriteData(s);
      && S.Inv(s')
      && (SenderAt(s', cfg, stream, k + 1, S.WriteData) || SenderAt(s', cfg, stream, k + 1, S.GetAck))
  {
    SL.WriteDataKeepsInv(s);
    SL.SendsFull(s);
    hide S.Inv, S.AfterWriteData, S.Payload;
  }

  lemma AckedGoesOn(s: S.Sender, cfg: Config, stream: seq<byte>, k: nat)
    requires S.Inv(s) && SenderAt(s, cfg, stream, k, S.GetAck) && cfg.retransmit >= 1
    ensures S.Inv(S.AfterGetAck(s, S.Ack(k)))
    ensures SenderAt(S.AfterGetAck(s, S.Ack(k)), cfg, stream, k, S.WriteData)
  {
    SL.ExpectedEffect(s);
    SL.GetAckKeepsInv(s, S.Ack(k));
  }

  function Arrived(r: R.Receiver, b: Block): R.Output { R.AfterReadData(r, R.Data(b)) }
  function Taken(r: R.Receiver, b: Block): R.Output { R.AfterAckData(Arrived(r, b).r) }
  function Waiting(r: R.Receiver, b: Block): R.Receiver { R.AfterRead(Taken(r, b).r) }
  function Repeated(r: R.Receiver, b: Block): R.Output { R.AfterReadData(Waiting(r, b), R.Timeout) }

  /** The next block arrives and is acknowledged, at the latest on a timeout. */
  lemma TakesFull(r: R.Receiver, b: Block, k: nat, want: nat)
    requires R.Inv(r) && ReceiverAt(r, k, want) && b.num == k + 1 && |b.payload| == r.cfg.blksize
    requires |r.accepted| + |b.payload| < want
    ensures Arrived(r, b).r.phase == R.AckData && Taken(r, b).r.phase == R.Read
    ensures Waiting(r, b).phase == R.ReadData && Repeated(r, b).acks == [k + 1]
    ensures ReceiverAt(Repeated(r, b).r, k + 1, want)
  {
    assert |r.rxBuf| <= |r.accepted|;
    assert !r.done;
    var r1 := Arrived(r, b).r;
    assert r1 == r.(tries := 0, rx := b, phase := R.AckData);
    assert R.Diff(r1) == 1;
    var r2 := Taken(r, b).r;
    assert r2 == R.Accept(r1).r;
  }

  lemma Delivers(sys: System, b: Block, k: nat, want: nat) returns (sys': System)
    requires Reachable(sys) && Linked(sys) && b in sys.data
    requires ReceiverAt(sys.r, k, want) && b.num == k + 1 && |b.payload| == sys.r.cfg.blksize
    requires |sys.r.accepted| + |b.payload| < want
    ensures Reachable(sys') && sys'.s == sys.s && sys.acks + {k + 1} <= sys'.acks
    ensures ReceiverAt(sys'.r, k + 1, want)
  {
    TakesFull(sys.r, b, k, want);
    assert sys.s.cfg.Valid() && sys.s.cursor <= |sys.s.chunks|;
    hide Linked, Reachable, R.AfterAckData, R.AfterRead, R.AfterReadData;
    var r, step := sys.r, Receive(R.DoStep);
    var arrive, wait := Receive(R.DoData(R.Data(b))), Receive(R.DoData(R.Timeout));
    var sys1 := Apply(sys, arrive);
    Reach(sys, arrive, sys1);
    var sys2 := Apply(sys1, step);
    Reach(sys1, step, sys2);
    var sys3 := Apply(sys2, step);
    Reach(sys2, step, sys3);
    sys' := Apply(sys3, wait);
    Reach(sys3, wait, sys');
    assert k + 1 in sys'.acks;
  }

  lemma SendsFull(sys: System, cfg: Config, stream: seq<byte>, k: nat) returns (sys': System)
    requires cfg.Valid() && Caught(sys, cfg, stream, k)
    requires (k + 1) * cfg.blksize <= |stream|
    ensures Reachable(sys') && S.Inv(sys'.s) && sys'.r == sys.r && sys'.acks == sys.acks
    ensures exists b :: b in sys'.data && b.num == k + 1 && |b.payload| == cfg.blksize
    ensures SenderAt(sys'.s, cfg, stream, k + 1, S.WriteData) || SenderAt(sys'.s, cfg, stream, k + 1, S.GetAck)
  {
    CutsFull(sys.s, cfg, stream, k);
    assert Ready(sys, Send(S.DoStep));
    hide S.Inv, S.AfterWriteData, S.Sends, S.SentBlock, Reachable;
    sys' := Apply(sys, Send(S.DoStep));
    Reach(sys, Send(S.DoStep), sys');
    assert S.SentBlock(sys.s) in sys'.data;
  }

  lemma OneMore(sys: System, cfg: Config, stream: seq<byte>, k: nat) returns (sys': System)
    requires cfg.Valid() && cfg.retransmit >= 1 && Caught(sys, cfg, stream, k)
    requires (k + 1) * cfg.blksize <= |stream| && BlocksOf(cfg, stream) < 0x1_0000
    ensures Caught(sys', cfg, stream, k + 1)
  {
    hide S.Inv, R.Inv, Reachable, CountersOk, DataOk, AcceptedOk, S.AfterGetAck;
    var sys1 := SendsFull(sys, cfg, stream, k);
    var b :| b in sys1.data && b.num == k + 1 && |b.payload| == cfg.blksize;
    AtMostQuotient(k + 1, |stream|, cfg.blksize);
    ReachableLinked(sys1);
    RoomForOne(sys1, k);
    var sys2 := Delivers(sys1, b, k, |stream| + 1);
    if sys2.s.phase == S.GetAck {
      AckedGoesOn(sys2.s, cfg, stream, k + 1);
      var ack := Send(S.DoAck(S.Ack(k + 1)));
      assert Ready(sys2, ack) by { assert S.Inv(sys2.s) ==> sys2.s.cursor <= |sys2.s.chunks|; }
      sys' := Apply(sys2, ack);
      Reach(sys2, ack, sys');
    } else {
      sys' := sys2;
    }
  }

  /** A full block that the receiver lacks fits between what it has and the whole stream. */
  lemma RoomForOne(sys: System, k: nat)
    requires Linked(sys) && sys.r.count == k && |sys.s.chunks| == k + 1 && !sys.s.closing
    ensures |sys.r.accepted| + sys.s.cfg.blksize <= |sys.s.stream|
    ensures sys.r.cfg.blksize == sys.s.cfg.blksize
  {
    var s := sys.s;
    BlocksLength(s.chunks, s.cfg.blksize, k);
    SL.LeftInBuffer(s);
    assert (k + 1) * s.cfg.blksize == k * s.cfg.blksize + s.cfg.blksize;
  }

  /** A move of the sender alone. */
  lemma Moves(sys: System, m: S.Move) returns (sys': System)
    requires Reachable(sys) && Ready(sys, Send(m))
    ensures Reachable(sys') && sys'.s == S.After(sys.s, m) && sys'.r == sys.r && sys'.acks == sys.acks
  {
    hide Reachable, S.After;
    sys' := Apply(sys, Send(m));
    Reach(sys, Send(m), sys');
  }

  function Started(cfg: Config): System {
    System(S.Fresh(cfg, true, false), R.Fresh(cfg.(retransmit := 2)), {}, {})
  }

  /** One `Read` for any number of bytes; the first timeout then acknowledges block 0. */
  lemma StartsReading(cfg: Config, want: nat) returns (sys: System)
    requires cfg.Valid() && want >= 1
    ensures Reachable(sys) && sys.s == S.Fresh(cfg, true, false) && ReceiverAt(sys.r, 0, want) && 0 in sys.acks
  {
    var sys0 := Started(cfg);
    assert IsRun([sys0]) && [sys0][|[sys0]| - 1] == sys0;
    hide Reachable;
    var r := sys0.r.(want := want, phase := R.Read);
    var sys1 := sys0.(r := r);
    Reach(sys0, Receive(R.DoRead(want)), sys1);
    var sys2 := sys1.(r := r.(phase := R.ReadData));
    Reach(sys1, Receive(R.DoStep), sys2);
    sys := sys2.(r := sys2.r.(tries := 1), acks := {0});
    Reach(sys2, Receive(R.DoData(R.Timeout)), sys);
  }

  /** The whole stream is written at once. */
  lemma CaughtZero(cfg: Config, stream: seq<byte>) returns (sys: System)
    requires cfg.Valid()
    ensures Caught(sys, cfg, stream, 0)
  {
    hide Reachable;
    var sys0 := StartsReading(cfg, |stream| + 1);
    var sys1 := Moves(sys0, S.DoWrite(stream));
    var sys2 := Moves(sys1, S.DoStep);
    assert [] + stream == stream;
    assert sys2.s == S.Fresh(cfg, true, false).(pending := stream, p := stream, n := |stream|, stream := stream,
                                                phase := S.WriteData);
    sys := sys2;
  }

  lemma {:induction false} CatchUp(cfg: Config, stream: seq<byte>, k: nat) returns (sys: System)
    requires cfg.Valid() && cfg.retransmit >= 1 && k < BlocksOf(cfg, stream) < 0x1_0000
    ensures Caught(sys, cfg, stream, k)
  {
    hide Caught;
    if k == 0 {
      sys := CaughtZero(cfg, stream);
    } else {
      sys := CatchUp(cfg, stream, k - 1);
      assert k * cfg.blksize <= |stream| by {
        var q := |stream| / cfg.blksize;
        assert k <= q ==> k * cfg.blksize <= q * cfg.blksize;
      }
      sys := OneMore(sys, cfg, stream, k - 1);
    }
  }

  /** After `Close`: all `n` blocks are cut and the last one is short. */
  ghost predicate Closing(s: S.Sender, cfg: Config, stream: seq<byte>, n: nat, cursor: nat, phase: S.Phase, done: bool) {
    && s.cfg == cfg && s.stream == stream && |s.chunks| == n && s.cursor == cursor
    && EndsShort(s.chunks, cfg.blksize)
    && s.phase == phase && s.err == NoErr && s.tries == 0
    && s.closing && !s.txOack && s.done == done
  }

  lemma Remainder(x: nat, m: nat)
    requires m >= 1
    ensures x - x / m * m == x % m < m
  {}

  lemma LastIsShort(s: S.Sender, cfg: Config, stream: seq<byte>, n: nat)
    requires cfg.Valid() && n + 1 == BlocksOf(cfg, stream)
    requires S.Inv(s) && SenderAt(s, cfg, stream, n, S.WriteData)
    ensures |s.pending| == |stream| % cfg.blksize < cfg.blksize
  {
    SL.LeftInBuffer(s);
    hide S.Inv;
    Remainder(|stream|, cfg.blksize);
  }

  /** `Close` sends the short block. */
  lemma CloseSendsShort(sys: System, cfg: Config, stream: seq<byte>, n: nat) returns (sys': System)
    requires cfg.Valid() && n + 1 == BlocksOf(cfg, stream) && Caught(sys, cfg, stream, n)
    ensures Reachable(sys') && sys'.r == sys.r && sys'.acks == sys.acks
    ensures Closing(sys'.s, cfg, stream, n + 1, n + 1, S.GetAck, true)
  {
    var s := sys.s;
    LastIsShort(s, cfg, stream, n);
    hide Reachable, S.Inv, BlocksOf, Closing;
    StopsAndCloses(s, cfg, stream, n);
    hide S.After;
    var sys1 := Moves(sys, S.DoStep);
    var sys2 := Moves(sys1, S.DoClose);
    var sys3 := Moves(sys2, S.DoStep);
    sys' := Moves(sys3, S.DoStep);
  }

  lemma StopsAndCloses(s: S.Sender, cfg: Config, stream: seq<byte>, n: nat)
    requires cfg.Valid() && SenderAt(s, cfg, stream, n, S.WriteData) && |s.pending| < cfg.blksize
    ensures S.After(s, S.DoStep) == s.(phase := S.Idle)
    ensures S.After(s.(phase := S.Idle), S.DoClose) == s.(closing := true, p := [], phase := S.Write)
    ensures var s' := s.(closing := true, p := [], n := 0, phase := S.WriteData);
      && S.After(s.(closing := true, p := [], phase := S.Write), S.DoStep) == s'
      && Closing(S.After(s', S.DoStep), cfg, stream, n + 1, n + 1, S.GetAck, true)
  {
    assert S.BufLen(s) == |s.pending|;
    assert s.pending + [] == s.pending;
    var s' := s.(closing := true, p := [], n := 0, phase := S.WriteData);
    assert S.Payload(s') == s.pending;
  }

  /** A stale ACK rewinds one block past the ring, which then replays the short block under an
      old number; the old ACK of that number ends the transfer. */
  lemma RewindsPastRing(sys: System, cfg: Config, stream: seq<byte>, n: nat) returns (sys': System)
    requires cfg.Valid() && cfg.retransmit >= 1 && cfg.windowsize < n < 0x1_0000
    requires Reachable(sys) && Closing(sys.s, cfg, stream, n, n, S.GetAck, true)
    requires n - 1 - cfg.windowsize in sys.acks && n - cfg.windowsize in sys.acks
    ensures Reachable(sys') && sys'.r == sys.r && sys'.s.cfg == cfg && sys'.s.stream == stream && ClosedNil(sys'.s)
  {
    hide Reachable;
    var w := cfg.windowsize;
    SL.RewindEffect(sys.s, n - 1 - w);
    var sys1 := Moves(sys, S.DoAck(S.Ack(n - 1 - w)));
    assert Closing(sys1.s, cfg, stream, n, n - 1 - w, S.WriteData, false);
    ReplaysShort(sys1.s, cfg, stream, n);
    var sys2 := Moves(sys1, S.DoStep);
    SL.ExpectedEffect(sys2.s);
    var sys3 := Moves(sys2, S.DoAck(S.Ack(n - w)));
    sys' := Moves(sys3, S.DoStep);
  }

  lemma ReplaysShort(s: S.Sender, cfg: Config, stream: seq<byte>, n: nat)
    requires cfg.Valid() && cfg.windowsize < n
    requires Closing(s, cfg, stream, n, n - 1 - cfg.windowsize, S.WriteData, false)
    ensures Closing(S.AfterWriteData(s), cfg, stream, n, n - cfg.windowsize, S.GetAck, true)
  {
    var w := cfg.windowsize;
    assert S.ReplayIndex(n - 1 - w, n, w) == S.ReplayIndex(n - 1, n, w) == n - 1;
  }

  /** More than a window of blocks, and `Close` may return nil although the short block is lost. */
  lemma {:induction false} NilCloseCanLoseData(cfg: Config, stream: seq<byte>) returns (sys: System)
    requires cfg.Valid() && cfg.retransmit >= 1
    requires cfg.windowsize < BlocksOf(cfg, stream) < 0x1_0000
    ensures Reachable(sys) && sys.s.cfg == cfg && sys.s.stream == stream && ClosedNil(sys.s) && !sys.r.done
    ensures |sys.r.accepted| == |stream| - |stream| % cfg.blksize
  {
    var n := BlocksOf(cfg, stream);
    var sys0 := CatchUp(cfg, stream, n - 1);
    MissesShort(sys0, cfg, stream, n - 1);
    hide Reachable, S.Inv;
    assert n - 1 - cfg.windowsize in sys0.acks && n - cfg.windowsize in sys0.acks;
    var sys1 := CloseSendsShort(sys0, cfg, stream, n - 1);
    sys := RewindsPastRing(sys1, cfg, stream, n);
  }

  lemma MissesShort(sys: System, cfg: Config, stream: seq<byte>, n: nat)
    requires cfg.Valid() && n + 1 == BlocksOf(cfg, stream) < 0x1_0000 && Caught(sys, cfg, stream, n)
    ensures !sys.r.done && |sys.r.accepted| == |stream| - |stream| % cfg.blksize
  {
    var s := sys.s;
    assert Short(sys) && s.chunks[..n] == s.chunks;
    assert !EndsShort(s.chunks, cfg.blksize) && Blocked(s.chunks, cfg.blksize);
    hide S.Inv, R.Inv, DataOk, Reachable;
    ReachableLinked(sys);
    FullLength(s.chunks, cfg.blksize);
    hide Flatten, EndsShort, Blocked, Linked;
    Remainder(|stream|, cfg.blksize);
  }

  /** When a nil `Close` can be believed: in a transfer of fewer than 65536 blocks, exactly when all
      of its blocks fit into one window. The caller can tell before the transfer begins. */
  lemma {:induction false} NilCloseExact(cfg: Config, stream: seq<byte>)
    requires cfg.Valid() && cfg.retransmit >= 1 && BlocksOf(cfg, stream) < 0x1_0000
    ensures (exists sys :: Reachable(sys) && sys.s.cfg == cfg && sys.s.stream == stream
                           && ClosedNil(sys.s) && !sys.r.done)
            <==> |stream| / cfg.blksize + 1 > cfg.windowsize
  {
    hide Reachable;
    if BlocksOf(cfg, stream) > cfg.windowsize {
      var sys := NilCloseCanLoseData(cfg, stream);
    } else {
      forall sys | Reachable(sys) && sys.s.cfg == cfg && sys.s.stream == stream && ClosedNil(sys.s)
        ensures sys.r.done
      {
        OneWindowCompletes(sys);
      }
    }
  }
}
