/** Transfers over channels that lose, double and time out nothing, in every interleaving of the
    two ends and with any sizes of writes and reads. */
module LossFree {
  import opened Bytes
  import opened Transfer
  import opened Endpoints
  import S = SenderSpec
  import SL = SenderLaws
  import R = ReceiverSpec
  import F = Fifo

  /** The two ends and their channels, with the number of DATA packets and of ACKs sent since
      the transfer was set up. */
  datatype Tally = Tally(sys: F.System, dataSent: nat, acksSent: nat)

  /** The steps of a reliable network: nothing is lost, doubled or given up on. */
  predicate Reliable(step: F.Step) {
    match step
    case Send(m) => !m.DoAck?
    case TakeAck => true
    case Receive(m) => !m.DoData?
    case TakeData => true
    case LoseData(_) => false
    case DupData(_) => false
    case LoseAck(_) => false
    case DupAck(_) => false
  }

  function Apply(t: Tally, step: F.Step): Tally
    requires F.Ready(t.sys, step)
  {
    Tally(F.Apply(t.sys, step),
          t.dataSent + if step == F.Send(S.DoStep) && S.Sends(t.sys.s) then 1 else 0,
          t.acksSent + if step.Receive? then |R.After(t.sys.r, step.move).acks| else 0)
  }

  ghost predicate Next(t: Tally, t': Tally) {
    exists step :: Reliable(step) && F.Ready(t.sys, step) && t' == Apply(t, step)
  }

  /** Both ends are willing to wait once; an OACK still to be sent will be answered by ACK 0. */
  ghost predicate Init(t: Tally) {
    && F.Init(t.sys) && t.dataSent == 0 && t.acksSent == 0
    && t.sys.s.cfg.retransmit >= 1 && t.sys.r.cfg.retransmit >= 1
    && t.sys.acks == if !t.sys.s.optionsParsed && t.sys.s.ackOpts then [0] else []
  }

  ghost predicate IsRun(run: seq<Tally>) {
    && |run| > 0 && Init(run[0])
    && forall i :: 0 <= i < |run| - 1 ==> Next(run[i], run[i + 1])
  }

  // The invariant.

  /** The reply to the OACK has not been taken yet. */
  predicate SettingUp(s: S.Sender) {
    (!s.optionsParsed && s.ackOpts) || s.phase == S.SendOack || (s.phase == S.GetAck && s.txOack)
  }

  /** The packets in flight are the blocks cut and not yet taken, in order. */
  ghost predicate InOrder(flight: seq<Block>, count: nat, head: nat) {
    count + |flight| == head && forall i :: 0 <= i < |flight| ==> flight[i].num == count + 1 + i
  }

  /** The receiver has acknowledged every full window, and the last block. */
  ghost predicate AckCount(r: R.Receiver, acksSent: nat) {
    var w := r.cfg.windowsize;
    if r.done then r.lastAck == r.count && (acksSent - 1) * w < r.count <= acksSent * w
    else r.lastAck == acksSent * w
  }

  /** The only ACK in flight is the one that the sender is waiting for. */
  ghost predicate AckChannel(s: S.Sender, r: R.Receiver, acks: seq<nat>) {
    if SettingUp(s) then acks == [0] && s.chunks == []
    else
      || (acks == [] && s.acked == r.lastAck)
      || (acks == [r.lastAck] && r.lastAck == r.count == |s.chunks| && s.phase == S.GetAck)
  }

  ghost predicate Healthy(s: S.Sender, r: R.Receiver) {
    && s.cfg.retransmit >= 1 && r.cfg.retransmit >= 1
    && s.err == NoErr && s.tries == 0 && s.cursor == |s.chunks|
    && (r.err == NoErr || r.err == Eof) && r.tries == 0 && !r.catchup
  }

  ghost predicate Inv(t: Tally) {
    && F.Linked(t.sys)
    && Healthy(t.sys.s, t.sys.r)
    && t.dataSent == |t.sys.s.chunks|
    && InOrder(F.InFlight(t.sys), t.sys.r.count, |t.sys.s.chunks|)
    && AckCount(t.sys.r, t.acksSent)
    && AckChannel(t.sys.s, t.sys.r, t.sys.acks)
  }

  lemma InitInv(t: Tally)
    requires Init(t)
    ensures Inv(t)
  {
    F.InitLinked(t.sys);
  }

  lemma TakeAckInv(t: Tally)
    requires Inv(t) && F.Ready(t.sys, F.TakeAck)
    ensures Inv(Apply(t, F.TakeAck))
  {
    var s := t.sys.s;
    assert t.sys.acks == [s.cursor] && t.sys.r.lastAck <= t.sys.r.count;
    hide S.Inv, R.Inv, F.DataOk, F.AcksOk, AcceptedOk;
    F.TakeAckLinked(t.sys);
    SL.ExpectedEffect(s);
    hide F.Linked;
    assert F.InFlight(Apply(t, F.TakeAck).sys) == F.InFlight(t.sys);
  }

  /** With the cursor at the head, `writeData` cuts a fresh block or stops. */
  lemma FreshOnly(t: Tally)
    requires Inv(t) && t.sys.s.phase == S.WriteData
    ensures var s := t.sys.s; var s' := S.AfterWriteData(s);
      && Healthy(s', t.sys.r) && AckChannel(s', t.sys.r, t.sys.acks)
      && |s'.chunks| == |s.chunks| + if S.Sends(s) then 1 else 0
  {
    hide R.Inv, F.DataOk, F.AcksOk, AcceptedOk, F.CountersOk, AckCount, InOrder, S.Payload;
  }

  lemma WriteDataInv(t: Tally)
    requires Inv(t) && t.sys.s.phase == S.WriteData
    ensures Inv(Apply(t, F.Send(S.DoStep)))
  {
    FreshOnly(t);
    var s := t.sys.s;
    assert s.cfg.Valid() && s.cursor <= |s.chunks|;
    hide S.Inv, R.Inv, F.DataOk, F.AcksOk, AcceptedOk, F.CountersOk, S.AfterWriteData, S.BufLen, AckChannel;
    F.WriteDataLinked(t.sys);
    if S.Sends(s) {
      F.FlightSend(t.sys);
      hide F.Linked, F.InFlight, S.Payload, AckCount;
    } else {
      hide F.Linked, InOrder, AckCount;
      assert Apply(t, F.Send(S.DoStep)).sys.data == t.sys.data;
    }
  }

  /** Application calls, the buffering of a write and the OACK. */
  lemma OtherSendInv(t: Tally, m: S.Move)
    requires Inv(t) && F.Ready(t.sys, F.Send(m)) && !m.DoAck?
    requires !(m == S.DoStep && t.sys.s.phase == S.WriteData)
    ensures Inv(Apply(t, F.Send(m)))
  {
    hide R.Inv, F.DataOk, F.AcksOk, AcceptedOk, AckCount, InOrder;
    F.OtherSendLinked(t.sys, m);
    OtherSendEnds(t.sys.s, t.sys.r, t.sys.acks, m);
    hide S.Inv, F.Linked, S.After, AckChannel, Healthy, F.CountersOk;
    assert Apply(t, F.Send(m)).sys.data == t.sys.data;
  }

  lemma OtherSendEnds(s: S.Sender, r: R.Receiver, acks: seq<nat>, m: S.Move)
    requires S.Inv(s) && Healthy(s, r) && AckChannel(s, r, acks)
    requires S.Enabled(s, m) && !m.DoAck? && !(m == S.DoStep && s.phase == S.WriteData)
    ensures var s' := S.After(s, m);
      Healthy(s', r) && AckChannel(s', r, acks) && s'.chunks == s.chunks
  {
    hide S.ChunkInv, S.WindowInv;
    match m
    case DoWrite(_) =>
    case DoClose =>
    case DoStep =>
  }

  lemma TakeDataInv(t: Tally)
    requires Inv(t) && F.Ready(t.sys, F.TakeData)
    ensures Inv(Apply(t, F.TakeData))
  {
    hide S.Inv, R.Inv, F.DataOk, F.AcksOk, AcceptedOk, F.CountersOk;
    F.TakeDataLinked(t.sys);
    F.FlightTake(t.sys);
    assert Apply(t, F.TakeData).sys.acks == t.sys.acks;
    hide F.Linked;
  }

  lemma ReadInv(t: Tally, m: R.Move)
    requires Inv(t) && F.Ready(t.sys, F.Receive(m)) && !m.DoData? && t.sys.r.phase != R.AckData
    ensures Inv(Apply(t, F.Receive(m)))
  {
    ReadEnds(t.sys.s, t.sys.r, t.acksSent, t.sys.acks, m);
    hide S.Inv, R.Inv, F.DataOk, F.AcksOk, AcceptedOk, F.CountersOk, AckCount, AckChannel, Healthy, InOrder, R.After;
    FlightRead(t.sys, m);
    F.OtherReceiveLinked(t.sys, m);
    hide F.Linked, F.InFlight;
  }

  lemma FlightRead(sys: F.System, m: R.Move)
    requires F.Ready(sys, F.Receive(m)) && !m.DoData? && sys.r.phase != R.AckData
    requires R.After(sys.r, m).acks == [] && R.After(sys.r, m).r.phase != R.AckData
    ensures var sys' := F.Apply(sys, F.Receive(m));
      sys'.s == sys.s && sys'.acks == sys.acks && F.InFlight(sys') == F.InFlight(sys)
  {
    hide R.After;
    assert sys.acks + [] == sys.acks;
  }

  lemma ReadEnds(s: S.Sender, r: R.Receiver, acksSent: nat, acks: seq<nat>, m: R.Move)
    requires R.Inv(r) && Healthy(s, r) && AckCount(r, acksSent) && AckChannel(s, r, acks)
    requires R.Enabled(r, m) && !m.DoData? && r.phase != R.AckData
    ensures var o := R.After(r, m);
      && o.acks == [] && o.r.count == r.count && o.r.phase != R.AckData
      && Healthy(s, o.r) && AckCount(o.r, acksSent) && AckChannel(s, o.r, acks)
  {}

  /** The packet at hand is the next block, and no ACK is in flight. */
  lemma NextAtHand(t: Tally)
    requires Inv(t) && t.sys.r.phase == R.AckData
    ensures var s := t.sys.s; var r := t.sys.r;
      && R.Diff(r) == 1 && r.count < |s.chunks| && r.rx.payload == s.chunks[r.count]
      && t.sys.acks == [] && s.acked == r.lastAck && !SettingUp(s)
  {
    assert F.InFlight(t.sys)[0] == t.sys.r.rx;
    F.NextIsExact(t.sys);
  }

  /** When the receiver acknowledges, everything cut has arrived and the sender is waiting. */
  lemma AckMeetsWait(s: S.Sender, r: R.Receiver)
    requires S.Inv(s) && s.err == NoErr && s.cursor == |s.chunks| && !s.txOack
    requires SameSizes(s, r) && s.acked <= r.count < |s.chunks|
    requires r.count + 1 == s.acked + s.cfg.windowsize || |s.chunks[r.count]| < s.cfg.blksize
    ensures r.count + 1 == |s.chunks| && s.phase == S.GetAck
  {}

  lemma AcceptCount(r: R.Receiver, acksSent: nat)
    requires R.Inv(r) && r.phase == R.AckData && AckCount(r, acksSent)
    ensures var o := R.Accept(r); AckCount(o.r, acksSent + |o.acks|)
  {
    var w := r.cfg.windowsize;
    assert (acksSent + 1) * w == acksSent * w + w;
    assert (acksSent + 1 - 1) * w == acksSent * w;
  }

  lemma AcceptChannel(t: Tally)
    requires Inv(t) && t.sys.r.phase == R.AckData
    ensures var o := R.Accept(t.sys.r); AckChannel(t.sys.s, o.r, t.sys.acks + o.acks)
  {
    NextAtHand(t);
    var s, r := t.sys.s, t.sys.r;
    var o := R.Accept(r);
    assert s.acked + r.window == r.count;
    if o.acks != [] {
      assert s.txOack ==> s.chunks == [];
      AckMeetsWait(s, r);
    }
    hide S.Inv, R.Inv, F.Linked, InOrder, AckCount, Healthy;
    assert t.sys.acks + o.acks == o.acks;
  }

  lemma AcceptInv(t: Tally)
    requires Inv(t) && t.sys.r.phase == R.AckData
    ensures Inv(Apply(t, F.Receive(R.DoStep)))
  {
    NextAtHand(t);
    AcceptChannel(t);
    AcceptCount(t.sys.r, t.acksSent);
    F.AcceptLinked(t.sys);
    hide S.Inv, R.Inv, F.Linked, AckCount, AckChannel, R.Diff;
    var t' := Apply(t, F.Receive(R.DoStep));
    assert F.InFlight(t'.sys) == F.InFlight(t.sys)[1..];
  }

  lemma StepInv(t: Tally, step: F.Step)
    requires Inv(t) && Reliable(step) && F.Ready(t.sys, step)
    ensures Inv(Apply(t, step))
  {
    hide Inv;
    match step
    case Send(m) =>
      if m == S.DoStep && t.sys.s.phase == S.WriteData { WriteDataInv(t); } else { OtherSendInv(t, m); }
    case TakeAck => TakeAckInv(t);
    case Receive(m) =>
      if t.sys.r.phase == R.AckData { AcceptInv(t); } else { ReadInv(t, m); }
    case TakeData => TakeDataInv(t);
  }

  lemma {:induction false} RunInv(run: seq<Tally>, i: nat)
    requires IsRun(run) && i < |run|
    ensures Inv(run[i])
  {
    hide Inv, Apply;
    if i == 0 {
      InitInv(run[0]);
    } else {
      RunInv(run, i - 1);
      assert Next(run[i - 1], run[(i - 1) + 1]);
      var step :| Reliable(step) && F.Ready(run[i - 1].sys, step) && run[i] == Apply(run[i - 1], step);
      StepInv(run[i - 1], step);
    }
  }

  /** The number of blocks of a closed stream. */
  lemma BlockCount(s: S.Sender)
    requires S.Inv(s) && EndsShort(s.chunks, s.cfg.blksize)
    ensures |s.chunks| == |s.stream| / s.cfg.blksize + 1
  {
    var n := |s.chunks|;
    BlocksLength(s.chunks, s.cfg.blksize, n - 1);
    ModUnique(|s.stream|, s.cfg.blksize, n - 1, |s.chunks[n - 1]|);
  }

  /** What has been carried: one DATA packet per block cut; and once the receiver is done,
      `⌊L/blksize⌋ + 1` DATA packets and one ACK per started window have carried exactly the stream. */
  ghost predicate Carried(t: Tally) {
    var s := t.sys.s; var r := t.sys.r;
    && s.err == NoErr && (r.err == NoErr || r.err == Eof)
    && t.dataSent == |s.chunks|
    && s.cfg.Valid()
    && (r.done ==>
          && r.accepted == s.stream
          && t.dataSent == |s.stream| / s.cfg.blksize + 1
          && t.acksSent == (t.dataSent + s.cfg.windowsize - 1) / s.cfg.windowsize)
    && (ClosedNil(s) ==> r.done)
  }

  /** Totals of a loss-free transfer, in every state of every run. No end ever fails, and no block
      is sent twice. */
  lemma {:induction false} Totals(run: seq<Tally>, i: nat)
    requires IsRun(run) && i < |run|
    ensures Carried(run[i])
  {
    RunInv(run, i);
    InvCarried(run[i]);
  }

  lemma InvCarried(t: Tally)
    requires Inv(t)
    ensures Carried(t)
  {
    var s, r := t.sys.s, t.sys.r;
    AcceptedIsPrefix(s, r);
    if r.done {
      DoneAtEnd(s, r);
      BlockCount(s);
      CeilingCount(r.count, t.acksSent, s.cfg.windowsize);
    }
  }

  lemma DoneAtEnd(s: S.Sender, r: R.Receiver)
    requires S.Inv(s) && r.count <= |s.chunks| && AcceptedOk(s, r) && r.done
    ensures r.count == |s.chunks| && EndsShort(s.chunks, s.cfg.blksize)
  {}

  lemma CeilingCount(n: nat, k: nat, w: nat)
    requires w >= 1 && (k - 1) * w < n <= k * w
    ensures k == (n + w - 1) / w
  {
    ModUnique(n + w - 1, w, k, n + w - 1 - k * w);
  }

  /** One of the ends, or a packet in flight, can move without its caller. */
  predicate CanMove(sys: F.System) {
    || F.Ready(sys, F.Send(S.DoStep)) || F.Ready(sys, F.TakeAck)
    || F.Ready(sys, F.Receive(R.DoStep)) || F.Ready(sys, F.TakeData)
  }

  /** A transfer never gets stuck: until `Write` or `Close` has returned, one of the ends can take
      a step of its own, or the receiver is only waiting for its caller to read. */
  lemma {:induction false} NeverStuck(run: seq<Tally>, i: nat)
    requires IsRun(run) && i < |run| && run[i].sys.s.phase != S.Idle
    ensures CanMove(run[i].sys) || (run[i].sys.r.phase == R.Idle && run[i].sys.r.err == NoErr && !run[i].sys.r.done)
  {
    RunInv(run, i);
    Unstuck(run[i]);
  }

  lemma Unstuck(t: Tally)
    requires Inv(t) && t.sys.s.phase != S.Idle
    ensures CanMove(t.sys) || (t.sys.r.phase == R.Idle && t.sys.r.err == NoErr && !t.sys.r.done)
  {
    if t.sys.s.phase == S.GetAck && t.sys.acks == [] {
      SenderWaits(t);
    }
    hide F.DataOk, F.AcksOk, AcceptedOk, S.DoneInv, S.WindowInv;
  }

  lemma SenderWaits(t: Tally)
    requires Inv(t) && t.sys.s.phase == S.GetAck && t.sys.acks == []
    ensures F.InFlight(t.sys) != [] && !t.sys.r.done
  {
    var s, r := t.sys.s, t.sys.r;
    assert r.done ==> r.lastAck == r.count;
    if r.done {
      DoneAtEnd(s, r);
    }
    if r.count == |s.chunks| && EndsShort(s.chunks, s.cfg.blksize) {
      AcceptedIsPrefix(s, r);
    }
  }
}
