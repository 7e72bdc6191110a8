/** Loss-free transfers end: a measure that every step but the callers' lowers. */
module Termination {
  import opened Bytes
  import opened Transfer
  import opened Endpoints
  import opened LossFree
  import S = SenderSpec
  import SL = SenderLaws
  import R = ReceiverSpec
  import F = Fifo

  // The measure.

  /** The bytes of a `Write` that has been called and not yet buffered. */
  function Promised(s: S.Sender): seq<byte> {
    if s.phase == S.Write || s.phase == S.SendOack || (s.phase == S.GetAck && s.txOack) then s.p else []
  }

  /** The number of blocks of so many bytes, the short one included. */
  function Blocks(len: nat, size: nat): nat
    requires size >= 1
  {
    len / size + 1
  }

  /** The blocks that can still be cut. */
  function Remaining(s: S.Sender): nat
    requires s.cfg.Valid()
  {
    if EndsShort(s.chunks, s.cfg.blksize) then 0
    else Blocks(|s.pending| + |Promised(s)|, s.cfg.blksize)
  }

  function SendRank(phase: S.Phase): nat {
    match phase
    case Idle => 0
    case WriteData => 1
    case Write => 2
    case GetAck => 3
    case SendOack => 4
  }

  function ReadRank(phase: R.Phase): nat {
    match phase
    case Idle => 0
    case ReadData => 1
    case Read => 2
    case AckData => 3
  }

  function Measure(sys: F.System): nat
    requires sys.s.cfg.Valid()
  {
    SendMeasure(sys.s) + 4 * |sys.data| + ReadRank(sys.r.phase)
  }

  lemma OneLess(x: nat, m: nat)
    requires m >= 1 && x >= m
    ensures Blocks(x - m, m) < Blocks(x, m)
  {
    ModUnique(x - m, m, x / m - 1, x % m);
  }

  lemma CutShape(s: S.Sender)
    requires s.cfg.Valid() && s.cursor == |s.chunks| && S.Sends(s)
    ensures var s' := S.AfterWriteData(s);
      && |s'.pending| == |s.pending| - Min(s.cfg.blksize, |s.pending|) && s'.cfg == s.cfg
      && Promised(s) == Promised(s') == []
      && |S.Payload(s)| == Min(s.cfg.blksize, |s.pending|)
  {
    hide S.EndsWindow, S.BufLen;
  }

  lemma NothingPromised(s: S.Sender)
    requires s.cfg.Valid() && Promised(s) == []
    ensures Remaining(s) == if EndsShort(s.chunks, s.cfg.blksize) then 0 else Blocks(|s.pending|, s.cfg.blksize)
  {}

  lemma CutLowers(s: S.Sender)
    requires S.Inv(s) && s.cursor == |s.chunks| && S.Sends(s)
    ensures Remaining(S.AfterWriteData(s)) < Remaining(s)
  {
    assert s.cfg.Valid();
    hide S.Inv, S.ChunkInv, EndsShort, Blocks, S.Sends, S.AfterWriteData, S.Payload, Promised, Remaining;
    CutShape(s);
    SL.FreshSize(s);
    SL.FreshChunkInv(s);
    NothingPromised(s);
    NothingPromised(S.AfterWriteData(s));
    assert Blocks(|s.pending|, s.cfg.blksize) >= 1 by { AtLeastOne(|s.pending|, s.cfg.blksize); }
    if |s.pending| >= s.cfg.blksize {
      OneLess(|s.pending|, s.cfg.blksize);
    }
  }

  lemma AtLeastOne(x: nat, m: nat)
    requires m >= 1
    ensures Blocks(x, m) >= 1
  {}

  /** The sender's share of the measure. */
  function SendMeasure(s: S.Sender): nat
    requires s.cfg.Valid()
  {
    7 * Remaining(s) + SendRank(s.phase)
  }

  lemma SendLowers(s: S.Sender)
    requires S.Inv(s) && s.cursor == |s.chunks| && S.Enabled(s, S.DoStep)
    ensures SendMeasure(S.After(s, S.DoStep)) + (if S.Sends(s) then 4 else 0) < SendMeasure(s)
  {
    hide Blocks, EndsShort, S.Payload;
    if s.phase == S.WriteData && S.Sends(s) {
      CutLowers(s);
    }
    hide S.Inv, S.Sends;
  }

  lemma BlocksAdd(x: nat, y: nat, size: nat)
    requires size >= 1
    ensures Blocks(x + y, size) <= Blocks(x, size) + Blocks(y, size)
  {
    var q, r := x / size + y / size, x % size + y % size;
    assert x + y == q * size + r;
    if r < size {
      ModUnique(x + y, size, q, r);
    } else {
      assert (q + 1) * size == q * size + size;
      ModUnique(x + y, size, q + 1, r - size);
    }
  }

  lemma AckLowers(s: S.Sender)
    requires s.cfg.Valid() && s.phase == S.GetAck && !S.Exhausted(s)
    ensures SendMeasure(S.AfterGetAck(s, S.Ack(s.cursor))) < SendMeasure(s)
  {
    SL.ExpectedEffect(s);
  }

  /** How much a call of `Write`, `Close` or `Read` may add to the measure, itself included. */
  function Credit(step: F.Step, size: nat): nat
    requires size >= 1
  {
    match step
    case Send(m) => if m.DoWrite? then 7 * Blocks(|m.p|, size) + 5 else if m.DoClose? then 3 else 0
    case Receive(m) => if m.DoRead? then 3 else 0
    case _ => 0
  }

  lemma CallRaises(s: S.Sender, m: S.Move)
    requires S.Inv(s) && s.phase == S.Idle && (m.DoWrite? || m.DoClose?)
    ensures SendMeasure(S.After(s, m)) < SendMeasure(s) + Credit(F.Send(m), s.cfg.blksize)
  {
    assert s.cfg.Valid();
    hide S.Inv, Blocks;
    BlocksAdd(|s.pending|, if m.DoWrite? then |m.p| else 0, s.cfg.blksize);
  }

  lemma ReceiveLowers(r: R.Receiver, m: R.Move)
    requires R.Enabled(r, m) && !m.DoData?
    ensures ReadRank(R.After(r, m).r.phase) < ReadRank(r.phase) + if m.DoRead? then 3 else 0
  {}

  /** Every step that is not a call lowers the measure, and a call raises it by a known amount. */
  lemma StepBound(t: Tally, step: F.Step)
    requires Inv(t) && Reliable(step) && F.Ready(t.sys, step)
    ensures t.sys.s.cfg.Valid() && Apply(t, step).sys.s.cfg == t.sys.s.cfg
    ensures Measure(Apply(t, step).sys) < Measure(t.sys) + Credit(step, t.sys.s.cfg.blksize)
  {
    var s, r := t.sys.s, t.sys.r;
    assert S.Inv(s) && s.cfg.Valid() && !S.Exhausted(s) && !R.Exhausted(r) && s.cursor == |s.chunks|;
    hide S.Inv, R.Inv, F.Linked, SendMeasure, ReadRank, Credit, S.After, R.After;
    match step
    case Send(m) =>
      SL.MoveGrows(s, m);
      if m.DoStep? { SendLowers(s); } else { CallRaises(s, m); }
    case TakeAck =>
      AckLowers(s);
    case Receive(m) => ReceiveLowers(r, m);
    case TakeData =>
  }

  // Runs by their steps.

  ghost predicate Path(t: Tally, steps: seq<F.Step>, t': Tally)
    decreases |steps|
  {
    if steps == [] then t' == t
    else Reliable(steps[0]) && F.Ready(t.sys, steps[0]) && Path(Apply(t, steps[0]), steps[1..], t')
  }

  function Credits(steps: seq<F.Step>, size: nat): nat
    requires size >= 1
  {
    if steps == [] then 0 else Credit(steps[0], size) + Credits(steps[1..], size)
  }

  /** Two ends that are not called any more cannot go on for ever: the length of a run is bounded by
      the measure at its start and by what `Write`, `Close` and `Read` were called with. */
  lemma {:induction false} PathBound(t: Tally, steps: seq<F.Step>, t': Tally)
    requires Inv(t) && Path(t, steps, t')
    ensures Inv(t') && t.sys.s.cfg.Valid() && t'.sys.s.cfg == t.sys.s.cfg
    ensures |steps| + Measure(t'.sys) <= Measure(t.sys) + Credits(steps, t.sys.s.cfg.blksize)
    decreases |steps|
  {
    assert t.sys.s.cfg.Valid();
    hide Inv, Measure, Credit, Apply;
    if steps != [] {
      StepInv(t, steps[0]);
      StepBound(t, steps[0]);
      PathBound(Apply(t, steps[0]), steps[1..], t');
    }
  }

  lemma StoppedIsClosed(t: Tally)
    requires Inv(t) && t.sys.s.closing && !CanMove(t.sys)
    requires t.sys.r.phase == R.Idle ==> t.sys.r.done || t.sys.r.err != NoErr
    ensures ClosedNil(t.sys.s)
  {
    hide Inv, CanMove;
    if t.sys.s.phase != S.Idle {
      Unstuck(t);
    }
    InvCarried(t);
    hide Blocks;
  }

  lemma MeasureAtStart(t: Tally)
    requires Init(t)
    ensures t.sys.s.cfg.Valid() && Measure(t.sys) == 7
  {}

  /** Every loss-free transfer ends well. Its runs are bounded, and where a run stops, with `Close`
      called, no step left and no `Read` to wait for, `Close` has returned nil and exactly
      `⌊L/blksize⌋ + 1` DATA packets and one ACK per started window have carried the stream. */
  lemma {:induction false} EndsWell(t: Tally, steps: seq<F.Step>, t': Tally)
    requires Init(t) && Path(t, steps, t')
    ensures t.sys.s.cfg.Valid() && |steps| <= 7 + Credits(steps, t.sys.s.cfg.blksize)
    ensures var s, r := t'.sys.s, t'.sys.r;
      s.closing && !CanMove(t'.sys) && (r.phase == R.Idle ==> r.done || r.err != NoErr) ==>
        && ClosedNil(s) && r.done && r.accepted == s.stream
        && t'.dataSent == |s.stream| / t.sys.s.cfg.blksize + 1
        && t'.acksSent == (t'.dataSent + t.sys.s.cfg.windowsize - 1) / t.sys.s.cfg.windowsize
  {
    hide Inv, Init, CanMove, Measure, Path, Credits;
    MeasureAtStart(t);
    InitInv(t);
    PathBound(t, steps, t');
    InvCarried(t');
    var s, r := t'.sys.s, t'.sys.r;
    if s.closing && !CanMove(t'.sys) && (r.phase == R.Idle ==> r.done || r.err != NoErr) {
      StoppedIsClosed(t');
    }
  }
}
