/** Loss-free transfers that succeed exist for every stream, however it is split over calls. */
module Delivery {
  import opened Bytes
  import opened Transfer
  import opened Endpoints
  import opened LossFree
  import opened Termination
  import S = SenderSpec
  import SL = SenderLaws
  import R = ReceiverSpec
  import F = Fifo

  /** There is a loss-free run from `t0` to `t`. */
  ghost predicate Reachable(t0: Tally, t: Tally) {
    exists run :: IsRun(run) && run[0] == t0 && run[|run| - 1] == t
  }

  lemma Extend(run: seq<Tally>, t: Tally, t': Tally)
    requires IsRun(run) && run[|run| - 1] == t && Next(t, t')
    ensures Reachable(run[0], t')
  {
    hide Next, Init;
    var run' := run + [t'];
    forall k | 0 <= k < |run'| - 1 ensures Next(run'[k], run'[k + 1]) {
      if k < |run| - 1 {
        assert Next(run[k], run[k + 1]);
      } else {
        assert run'[k] == t;
      }
    }
    assert IsRun(run') && run'[0] == run[0] && run'[|run'| - 1] == t';
  }

  /** A state on the way, with the parameters it started from. */
  ghost predicate OnWay(t: Tally, t0: Tally) {
    Reachable(t0, t) && Inv(t) && t.sys.s.cfg == t0.sys.s.cfg && t.sys.r.cfg == t0.sys.r.cfg
  }

  lemma InvParts(t: Tally)
    requires Inv(t)
    ensures S.Inv(t.sys.s) && t.sys.s.err == NoErr && !S.Exhausted(t.sys.s) && !R.Exhausted(t.sys.r)
    ensures t.sys.s.cfg.Valid() && t.sys.s.cursor == |t.sys.s.chunks|
    ensures t.sys.s.phase == S.GetAck && t.sys.acks != [] ==> t.sys.acks == [t.sys.s.cursor]
  {}

  lemma ReceiverCfg(r: R.Receiver, m: R.Move)
    requires R.Enabled(r, m)
    ensures R.After(r, m).r.cfg == r.cfg
  {}

  lemma StepCfg(t: Tally, step: F.Step)
    requires F.Ready(t.sys, step)
    ensures Apply(t, step).sys.s.cfg == t.sys.s.cfg && Apply(t, step).sys.r.cfg == t.sys.r.cfg
  {
    hide S.After, R.After;
    match step
    case Send(m) => SL.MoveGrows(t.sys.s, m);
    case TakeAck =>
    case Receive(m) => ReceiverCfg(t.sys.r, m);
    case TakeData =>
    case LoseData(_) =>
    case DupData(_) =>
    case LoseAck(_) =>
    case DupAck(_) =>
  }

  lemma Go(t: Tally, step: F.Step, t0: Tally)
    requires OnWay(t, t0) && Reliable(step) && F.Ready(t.sys, step)
    ensures OnWay(Apply(t, step), t0)
  {
    StepInv(t, step);
    StepCfg(t, step);
    hide Inv, Apply, IsRun;
    var run: seq<Tally> :| IsRun(run) && run[0] == t0 && run[|run| - 1] == t;
    Extend(run, t, Apply(t, step));
  }

  /** A receiver's move without an ACK. */
  lemma GoQuietly(t: Tally, m: R.Move, r: R.Receiver, t0: Tally) returns (t': Tally)
    requires OnWay(t, t0) && R.Enabled(t.sys.r, m) && !m.DoData?
    requires R.After(t.sys.r, m) == R.Output(r, [])
    ensures OnWay(t', t0) && t' == t.(sys := t.sys.(r := r))
  {
    hide Inv, Reachable, R.After;
    InvParts(t);
    hide OnWay, S.Inv;
    Go(t, F.Receive(m), t0);
    t' := Apply(t, F.Receive(m));
    assert t.sys.acks + [] == t.sys.acks;
  }

  /** An idle receiver is asked for more than it has. */
  lemma ReadsMore(t: Tally, t0: Tally) returns (t': Tally)
    requires OnWay(t, t0) && t.sys.r.phase == R.Idle && t.sys.r.err == NoErr && !t.sys.r.done
    ensures OnWay(t', t0)
    ensures t'.sys == t.sys.(r := t.sys.r.(n := 0, want := |t.sys.r.rxBuf| + 1, phase := R.ReadData))
  {
    hide OnWay;
    var r := t.sys.r.(n := 0, want := |t.sys.r.rxBuf| + 1);
    t' := GoQuietly(t, R.DoRead(|r.rxBuf| + 1), r.(phase := R.Read), t0);
    t' := GoQuietly(t', R.DoStep, r.(phase := R.ReadData), t0);
  }

  lemma ReadsAgain(t: Tally, t0: Tally) returns (t': Tally)
    requires OnWay(t, t0) && t.sys.data != []
    requires t.sys.r.phase == R.Idle && t.sys.r.err == NoErr && !t.sys.r.done
    ensures OnWay(t', t0) && t'.sys.s == t.sys.s && t0.sys.s.cfg.Valid() && Measure(t'.sys) < Measure(t.sys)
  {
    hide Inv, Reachable, SendMeasure, S.Inv;
    InvParts(t);
    hide OnWay;
    var t1 := ReadsMore(t, t0);
    Go(t1, F.TakeData, t0);
    t' := Apply(t1, F.TakeData);
  }

  /** What the receiver does while the sender waits for an ACK that it has not sent yet: it takes
      its packets, reading again when nobody else asks it to. */
  lemma ReceiverGoes(t: Tally, t0: Tally) returns (t': Tally)
    requires OnWay(t, t0) && t.sys.s.phase == S.GetAck && t.sys.acks == []
    ensures OnWay(t', t0) && t'.sys.s == t.sys.s && t0.sys.s.cfg.Valid() && Measure(t'.sys) < Measure(t.sys)
  {
    hide Inv, Reachable, Measure, R.After, R.AfterReadData, S.Inv;
    SenderWaits(t);
    NotEof(t);
    InvParts(t);
    hide OnWay;
    if t.sys.r.phase == R.Idle {
      t' := ReadsAgain(t, t0);
    } else {
      var step := if t.sys.r.phase == R.ReadData then F.TakeData else F.Receive(R.DoStep);
      StepBound(t, step);
      Go(t, step, t0);
      t' := Apply(t, step);
    }
  }

  lemma NotEof(t: Tally)
    requires Inv(t) && !t.sys.r.done
    ensures t.sys.r.err == NoErr
  {}

  lemma SenderSteps(t: Tally, t0: Tally) returns (t': Tally)
    requires OnWay(t, t0) && S.Enabled(t.sys.s, S.DoStep)
    ensures OnWay(t', t0) && t0.sys.s.cfg.Valid() && Measure(t'.sys) < Measure(t.sys)
    ensures t.sys.s.cursor <= |t.sys.s.chunks| && t'.sys.s == S.After(t.sys.s, S.DoStep)
  {
    hide Inv, Reachable, Measure, S.Inv, S.After;
    InvParts(t);
    StepBound(t, F.Send(S.DoStep));
    Go(t, F.Send(S.DoStep), t0);
    hide OnWay;
    t' := Apply(t, F.Send(S.DoStep));
  }

  lemma SenderTakesAck(t: Tally, t0: Tally) returns (t': Tally)
    requires OnWay(t, t0) && t.sys.s.phase == S.GetAck && t.sys.acks != []
    ensures OnWay(t', t0) && t0.sys.s.cfg.Valid() && Measure(t'.sys) < Measure(t.sys)
    ensures t'.sys.s == S.AfterGetAck(t.sys.s, S.Ack(t.sys.s.cursor)) && !S.Exhausted(t.sys.s)
  {
    hide Inv, Reachable, Measure, S.Inv, S.AfterGetAck;
    InvParts(t);
    StepBound(t, F.TakeAck);
    Go(t, F.TakeAck, t0);
    hide OnWay;
    t' := Apply(t, F.TakeAck);
  }

  /** The sender has made one move, or waits for an ACK that is not there yet. */
  ghost predicate Went(sys: F.System, s': S.Sender) {
    var s := sys.s;
    if s.phase != S.GetAck then s.cfg.Valid() && s.cursor <= |s.chunks| && S.Enabled(s, S.DoStep) && s' == S.After(s, S.DoStep)
    else if sys.acks == [] then s' == s
    else s' == S.AfterGetAck(s, S.Ack(s.cursor)) && !S.Exhausted(s)
  }

  lemma SenderGoes(t: Tally, t0: Tally) returns (t': Tally)
    requires OnWay(t, t0) && t.sys.s.phase != S.Idle
    ensures OnWay(t', t0) && t0.sys.s.cfg.Valid() && t.sys.s.cfg.Valid() && Measure(t'.sys) < Measure(t.sys)
    ensures Went(t.sys, t'.sys.s)
  {
    hide Inv, Reachable, Measure, S.Inv, S.After, S.AfterGetAck;
    InvParts(t);
    hide OnWay;
    if t.sys.s.phase != S.GetAck {
      t' := SenderSteps(t, t0);
    } else if t.sys.acks == [] {
      t' := ReceiverGoes(t, t0);
    } else {
      t' := SenderTakesAck(t, t0);
    }
  }

  // The calls of a transfer.

  /** The bytes that the sender has been given, buffered or not. */
  function Given(s: S.Sender): seq<byte> {
    if s.closing then s.stream else s.stream + Promised(s)
  }

  lemma StepKeepsGiven(s: S.Sender)
    requires s.cfg.Valid() && s.cursor <= |s.chunks| && S.Enabled(s, S.DoStep)
    ensures var s' := S.After(s, S.DoStep);
      Given(s') == Given(s) && s'.closing == s.closing && s'.optionsParsed == s.optionsParsed
  {
    hide S.Payload, S.Sends;
    assert s.stream + s.p + [] == s.stream + s.p;
    assert s.stream + [] == s.stream;
  }

  lemma AckKeepsGiven(s: S.Sender)
    requires s.phase == S.GetAck && !S.Exhausted(s)
    ensures var s' := S.AfterGetAck(s, S.Ack(s.cursor));
      Given(s') == Given(s) && s'.closing == s.closing && s'.optionsParsed == s.optionsParsed && s'.done == s.done
  {
    SL.ExpectedEffect(s);
  }

  /** A `Write` returns, and all of its bytes have entered the stream. */
  lemma {:induction false} Returns(t: Tally, t0: Tally) returns (t': Tally)
    requires OnWay(t, t0) && t0.sys.s.cfg.Valid() && !t.sys.s.closing && t.sys.s.optionsParsed
    ensures OnWay(t', t0) && t'.sys.s.phase == S.Idle && !t'.sys.s.closing && t'.sys.s.optionsParsed
    ensures t'.sys.s.stream == Given(t.sys.s)
    decreases Measure(t.sys)
  {
    hide Inv, Reachable, Measure, S.After, S.AfterGetAck, S.Inv;
    InvParts(t);
    hide OnWay;
    var s := t.sys.s;
    if s.phase == S.Idle {
      t' := t;
    } else {
      t' := SenderGoes(t, t0);
      if s.phase != S.GetAck { StepKeepsGiven(s); } else if t.sys.acks != [] { AckKeepsGiven(s); }
      t' := Returns(t', t0);
    }
  }

  lemma StartsOnWay(t0: Tally)
    requires Init(t0)
    ensures OnWay(t0, t0)
  {
    InitInv(t0);
    hide Inv, Init;
    assert IsRun([t0]) && [t0][|[t0]| - 1] == t0;
  }

  lemma WriteCalled(s: S.Sender, p: seq<byte>)
    requires s.phase == S.Idle && s.err == NoErr && !s.closing
    ensures var s' := S.CallWrite(s, p); Given(s') == s.stream + p && !s'.closing && s'.optionsParsed
  {}

  lemma {:induction false} WritesAll(t0: Tally, ps: seq<seq<byte>>)
    returns (t: Tally)
    requires Init(t0)
    ensures OnWay(t, t0) && t.sys.s.phase == S.Idle && !t.sys.s.closing && t.sys.s.stream == Flatten(ps)
    ensures t0.sys.s.optionsParsed || ps != [] ==> t.sys.s.optionsParsed
  {
    hide OnWay;
    if ps == [] {
      StartsOnWay(t0);
      t := t0;
    } else {
      var p := ps[|ps| - 1];
      t := WritesAll(t0, ps[..|ps| - 1]);
      t := Writes(t, p, t0);
    }
  }

  lemma Writes(t: Tally, p: seq<byte>, t0: Tally) returns (t': Tally)
    requires OnWay(t, t0) && t0.sys.s.cfg.Valid() && t.sys.s.phase == S.Idle && !t.sys.s.closing
    ensures OnWay(t', t0) && t'.sys.s.phase == S.Idle && !t'.sys.s.closing && t'.sys.s.optionsParsed
    ensures t'.sys.s.stream == t.sys.s.stream + p
  {
    var call := F.Send(S.DoWrite(p));
    assert F.Ready(t.sys, call) && t.sys.s.err == NoErr;
    hide OnWay;
    WriteCalled(t.sys.s, p);
    Go(t, call, t0);
    t' := Returns(Apply(t, call), t0);
  }

  // The end of a transfer.

  /** `Close` is under way, and the short block has not been acknowledged. */
  predicate ClosingUp(s: S.Sender) {
    s.closing && s.phase != S.Idle && (s.done ==> s.phase == S.GetAck)
  }

  /** The short block has been sent, and its ACK is there to be taken. */
  predicate LastWait(sys: F.System) {
    sys.s.closing && sys.s.phase == S.GetAck && sys.s.done && sys.acks != []
  }

  lemma StepClosing(s: S.Sender)
    requires S.Inv(s) && ClosingUp(s) && S.Enabled(s, S.DoStep)
    ensures ClosingUp(S.After(s, S.DoStep))
  {
    hide S.Payload, S.BufLen, S.ChunkInv, S.WindowInv;
  }

  lemma AckClosing(s: S.Sender)
    requires ClosingUp(s) && s.phase == S.GetAck && !S.Exhausted(s) && !s.done
    ensures ClosingUp(S.AfterGetAck(s, S.Ack(s.cursor)))
  {
    SL.ExpectedEffect(s);
  }

  lemma {:induction false} ReachesLastWait(t: Tally, t0: Tally) returns (t': Tally)
    requires OnWay(t, t0) && t0.sys.s.cfg.Valid() && ClosingUp(t.sys.s)
    ensures OnWay(t', t0) && LastWait(t'.sys) && t'.sys.s.stream == t.sys.s.stream
    decreases Measure(t.sys)
  {
    hide Inv, Reachable, Measure, S.After, S.AfterGetAck, S.Inv;
    InvParts(t);
    hide OnWay;
    var s := t.sys.s;
    if LastWait(t.sys) {
      t' := t;
    } else {
      t' := SenderGoes(t, t0);
      if s.phase != S.GetAck {
        StepKeepsGiven(s);
        StepClosing(s);
      } else if t.sys.acks != [] {
        AckKeepsGiven(s);
        AckClosing(s);
      }
      t' := ReachesLastWait(t', t0);
    }
  }

  lemma CloseCalled(s: S.Sender)
    requires S.Inv(s) && s.phase == S.Idle && s.err == NoErr && !s.closing && s.optionsParsed
    ensures ClosingUp(S.CallClose(s)) && S.CallClose(s).stream == s.stream
  {
    hide Flatten;
  }

  /** Whatever the sizes and the stream, written in any pieces, `Close` comes to wait for its last ACK. */
  lemma {:induction false} ClosesLast(t0: Tally, ps: seq<seq<byte>>)
    returns (t: Tally)
    requires Init(t0) && (t0.sys.s.optionsParsed || ps != [])
    ensures OnWay(t, t0) && LastWait(t.sys) && t.sys.s.stream == Flatten(ps)
  {
    hide Inv, Reachable, Flatten;
    t := WritesAll(t0, ps);
    var call := F.Send(S.DoClose);
    assert S.Inv(t.sys.s) && t.sys.s.err == NoErr && F.Ready(t.sys, call) by { InvParts(t); }
    CloseCalled(t.sys.s);
    hide OnWay, S.CallClose, S.Inv, ClosingUp, LastWait;
    Go(t, call, t0);
    t := ReachesLastWait(Apply(t, call), t0);
  }

  /** The last ACK is taken, and `Close` returns nil. */
  lemma Closes(t: Tally, t0: Tally) returns (t': Tally)
    requires OnWay(t, t0) && LastWait(t.sys)
    ensures OnWay(t', t0) && ClosedNil(t'.sys.s) && t'.sys.s.stream == t.sys.s.stream
  {
    hide Inv, Reachable, Measure, S.AfterGetAck, S.AfterWriteData, F.Ready;
    LastStep(t);
    hide OnWay;
    var t1 := SenderTakesAck(t, t0);
    t' := SenderSteps(t1, t0);
  }

  lemma LastStep(t: Tally)
    requires Inv(t) && LastWait(t.sys)
    ensures F.Ready(t.sys, F.TakeAck) && t.sys.acks == [t.sys.s.cursor]
    ensures var s' := S.AfterGetAck(t.sys.s, S.Ack(t.sys.s.cursor));
      && s' == t.sys.s.(tries := 0, acked := t.sys.s.cursor, phase := S.WriteData)
      && S.AfterWriteData(s') == s'.(phase := S.Idle)
      && t.sys.s.err == NoErr
  {
    hide F.DataOk, F.AcksOk, AcceptedOk, S.WindowInv, S.ChunkInv;
    SL.ExpectedEffect(t.sys.s);
  }

  lemma DoneReceiver(t: Tally)
    requires Inv(t) && t.sys.r.done
    ensures t.sys.r.phase == R.Idle || t.sys.r.phase == R.Read
    ensures t.sys.r.err == NoErr || (t.sys.r.err == Eof && t.sys.r.returned == t.sys.r.accepted)
  {
    hide F.DataOk, F.AcksOk, AcceptedOk, S.Inv;
  }

  /** A `Read` under way on a receiver that is done returns. */
  lemma ReadReturns(t: Tally, t0: Tally) returns (t': Tally)
    requires OnWay(t, t0) && t.sys.r.done && t.sys.r.phase == R.Read
    ensures OnWay(t', t0) && t'.sys.s == t.sys.s && t'.sys.r == R.AfterRead(t.sys.r)
    ensures t'.sys.r.done && t'.sys.r.phase == R.Idle && t'.sys.r.accepted == t.sys.r.accepted
  {
    hide OnWay;
    t' := GoQuietly(t, R.DoStep, R.AfterRead(t.sys.r), t0);
  }

  /** The caller of a receiver that is done gets what is left, and then the end of the stream. */
  lemma ReadsOut(t: Tally, t0: Tally) returns (t': Tally)
    requires OnWay(t, t0) && t.sys.r.done
    ensures OnWay(t', t0) && t'.sys.s == t.sys.s
    ensures t'.sys.r.done && t'.sys.r.err == Eof && t'.sys.r.returned == t'.sys.r.accepted == t.sys.r.accepted
  {
    DoneReceiver(t);
    hide Inv, Reachable, R.AfterRead;
    t' := t;
    if t.sys.r.phase == R.Read {
      t' := ReadReturns(t, t0);
      DoneReceiver(t');
    }
    if t'.sys.r.err == NoErr {
      var r := t'.sys.r;
      t' := GoQuietly(t', R.DoRead(|r.rxBuf|), r.(n := 0, want := |r.rxBuf|, phase := R.Read), t0);
      DrainsAll(t'.sys.r);
      t' := ReadReturns(t', t0);
      DoneReceiver(t');
    }
  }

  lemma DrainsAll(r: R.Receiver)
    requires r.done && r.want == |r.rxBuf|
    ensures R.AfterRead(r).err == Eof
  {}

  /** Over reliable channels every stream can be delivered: for all sizes, however the stream is split
      over calls of `Write`, with or without an OACK, there is a run in which `Close` returns nil and
      the caller at the other end has read the whole stream and its end, with the fewest packets. */
  lemma {:induction false} Delivers(t0: Tally, ps: seq<seq<byte>>)
    requires Init(t0) && (t0.sys.s.optionsParsed || ps != [])
    ensures t0.sys.s.cfg.Valid()
    ensures exists t: Tally ::
      && Reachable(t0, t) && ClosedNil(t.sys.s) && t.sys.s.stream == Flatten(ps)
      && t.sys.r.done && t.sys.r.err == Eof && t.sys.r.returned == Flatten(ps)
      && t.dataSent == |Flatten(ps)| / t0.sys.s.cfg.blksize + 1
      && t.acksSent == (t.dataSent + t0.sys.s.cfg.windowsize - 1) / t0.sys.s.cfg.windowsize
  {
    hide Inv, Reachable, Flatten;
    var t := ClosesLast(t0, ps);
    t := Closes(t, t0);
    InvCarried(t);
    t := ReadsOut(t, t0);
    InvCarried(t);
    assert Reachable(t0, t);
  }
}
