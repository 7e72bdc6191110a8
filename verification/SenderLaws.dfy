/** What the sender keeps under every sequence of application calls, ACKs and timeouts. */
module SenderLaws {
  import opened Bytes
  import opened Transfer
  import opened SenderSpec

  lemma FreshInv(cfg: Config, optionsParsed: bool, ackOpts: bool)
    requires cfg.Valid()
    ensures Inv(Fresh(cfg, optionsParsed, ackOpts))
  {}

  lemma CallsKeepInv(s: Sender, p: seq<byte>)
    requires Inv(s) && s.phase == Idle
    ensures Inv(CallWrite(s, p)) && Inv(CallClose(s))
  {}

  lemma WriteKeepsInv(s: Sender)
    requires Inv(s) && s.phase == Write
    ensures Inv(AfterWrite(s))
  {
    assert s.closing && s.p == [] ==> s.pending + s.p == s.pending;
    assert Flatten(s.chunks) + (s.pending + s.p) == Flatten(s.chunks) + s.pending + s.p;
  }

  /** A replayed block that is short is the last one, and the last position replays itself. */
  lemma ReplayedShort(s: Sender)
    requires Inv(s) && s.cursor < |s.chunks|
    ensures |Payload(s)| < s.cfg.blksize ==> EndsShort(s.chunks, s.cfg.blksize)
    ensures s.cursor + 1 == |s.chunks| ==> Payload(s) == s.chunks[s.cursor]
  {
  }

  /** A block read off the buffer is full unless `Close` has been called. */
  lemma FreshSize(s: Sender)
    requires Inv(s) && Sends(s) && s.cursor == |s.chunks|
    ensures |Payload(s)| <= s.cfg.blksize
    ensures |Payload(s)| < s.cfg.blksize ==> s.closing && |Payload(s)| == |s.pending|
    ensures !EndsShort(s.chunks, s.cfg.blksize)
  {}

  /** Cutting a fresh block moves bytes from the buffer to the block list and loses none. */
  lemma {:induction false} CutConserves(cs: seq<seq<byte>>, pending: seq<byte>, k: nat, size: nat)
    requires Blocked(cs, size) && !EndsShort(cs, size) && k <= |pending| && k <= size
    ensures Flatten(cs + [pending[..k]]) + pending[k..] == Flatten(cs) + pending
    ensures Blocked(cs + [pending[..k]], size)
    ensures k == |pending| ==> Flatten(cs + [pending[..k]]) == Flatten(cs) + pending
  {
    FlattenAppend(cs, pending[..k]);
    hide Flatten;
    assert pending == pending[..k] + pending[k..];
    Assoc(Flatten(cs), pending[..k], pending[k..]);
    assert k == |pending| ==> pending[..k] == pending;
  }

  lemma FreshChunkInv(s: Sender)
    requires Inv(s) && Sends(s) && s.cursor == |s.chunks|
    ensures ChunkInv(AfterWriteData(s))
    ensures EndsShort(AfterWriteData(s).chunks, s.cfg.blksize) <==> |Payload(s)| < s.cfg.blksize
  {
    var k := Min(s.cfg.blksize, |s.pending|);
    FreshSize(s);
    CutConserves(s.chunks, s.pending, k, s.cfg.blksize);
    var s' := AfterWriteData(s);
    assert s'.chunks == s.chunks + [s.pending[..k]] && s'.pending == s.pending[k..];
    hide DoneInv, WindowInv;
  }

  lemma FreshKeepsInv(s: Sender)
    requires Inv(s) && Sends(s) && s.cursor == |s.chunks|
    ensures Inv(AfterWriteData(s))
  {
    hide ChunkInv, Payload, EndsShort, BufLen;
    FreshChunkInv(s);
    FreshSize(s);
    assert !s.done;
    FreshKeepsWindow(s);
    hide WindowInv;
  }

  lemma FreshKeepsWindow(s: Sender)
    requires s.cfg.Valid() && WindowInv(s) && s.cursor == |s.chunks| && Sends(s) && !s.done
    ensures WindowInv(AfterWriteData(s))
    ensures AfterWriteData(s).cursor == |AfterWriteData(s).chunks|
  {
    hide Payload, EndsShort, BufLen, Min;
  }

  lemma ReplayKeepsInv(s: Sender)
    requires Inv(s) && Sends(s) && s.cursor < |s.chunks|
    ensures Inv(AfterWriteData(s))
  {
    ReplayedShort(s);
  }

  lemma WriteDataKeepsInv(s: Sender)
    requires Inv(s) && s.phase == WriteData
    ensures Inv(AfterWriteData(s))
  {
    if Sends(s) {
      if s.cursor == |s.chunks| {
        FreshKeepsInv(s);
      } else {
        ReplayKeepsInv(s);
      }
    }
  }

  /** An accepted ACK moves the cursor back by less than 65536 and never below zero. */
  lemma AcceptEffect(s: Sender, num: nat)
    requires s.phase == GetAck && !Exhausted(s) && Accepts(s, num)
    ensures var s' := AfterGetAck(s, Ack(num));
      && s'.cursor == s'.acked == s.cursor - (U16(s.cursor) - U16(num)) <= s.cursor
      && U16(s'.cursor) == U16(num)
      && s'.chunks == s.chunks && s'.pending == s.pending && s'.stream == s.stream
      && (s'.cursor == s.cursor ==> s'.done == s.done && s'.window == s.window)
      && (s'.cursor < s.cursor ==> !s'.done && s'.window == 0)
  {}

  /** The expected ACK leaves everything but the counters of `getAck` alone. */
  lemma ExpectedEffect(s: Sender)
    requires s.phase == GetAck && !Exhausted(s)
    ensures AfterGetAck(s, Ack(s.cursor))
         == s.(tries := 0, acked := s.cursor, phase := if s.txOack then Write else WriteData)
  {}

  /** An older ACK, before any wrap, rewinds to its block. */
  lemma RewindEffect(s: Sender, num: nat)
    requires s.phase == GetAck && !Exhausted(s) && num < s.cursor < 0x1_0000
    ensures AfterGetAck(s, Ack(num))
         == s.(cursor := num, window := 0, done := false, tries := 0, acked := num,
               phase := if s.txOack then Write else WriteData)
  {}

  lemma AcceptKeepsInv(s: Sender, num: nat)
    requires Inv(s) && s.phase == GetAck && !Exhausted(s) && Accepts(s, num)
    ensures Inv(AfterGetAck(s, Ack(num)))
  {
    AcceptEffect(s, num);
  }

  lemma GetAckKeepsInv(s: Sender, ev: AckEvent)
    requires Inv(s) && s.phase == GetAck
    ensures Inv(AfterGetAck(s, ev))
  {
    if ev.Ack? && !Exhausted(s) && Accepts(s, ev.num) {
      AcceptKeepsInv(s, ev.num);
    }
  }

  lemma MoveKeepsInv(s: Sender, m: Move)
    requires Inv(s) && Enabled(s, m)
    ensures Inv(After(s, m))
  {
    match m
    case DoWrite(p) => CallsKeepInv(s, p);
    case DoClose => CallsKeepInv(s, []);
    case DoAck(ev) => GetAckKeepsInv(s, ev);
    case DoStep =>
      if s.phase == Write { WriteKeepsInv(s); }
      if s.phase == WriteData { WriteDataKeepsInv(s); }
  }

  lemma WriteDataFrame(s: Sender)
    requires s.cfg.Valid() && s.cursor <= |s.chunks|
    ensures var s' := AfterWriteData(s); s.chunks <= s'.chunks && s'.cfg == s.cfg && s'.err == s.err
  {
    hide BufLen, Sends, EndsWindow, ReplayIndex;
  }

  lemma GetAckFrame(s: Sender, ev: AckEvent)
    ensures var s' := AfterGetAck(s, ev); s'.chunks == s.chunks && s'.cfg == s.cfg
    ensures AfterGetAck(s, ev).phase == SendOack ==> s.phase == SendOack
    ensures AfterGetAck(s, ev).optionsParsed == s.optionsParsed
    ensures AfterGetAck(s, ev).err == NoErr <==> s.err == NoErr && !Exhausted(s) && !ev.Timeout? && !ev.Bad?
  {
    hide Accepts;
  }

  /** Blocks are never uncut or changed. */
  lemma MoveGrows(s: Sender, m: Move)
    requires s.cfg.Valid() && s.cursor <= |s.chunks| && Enabled(s, m)
    ensures s.chunks <= After(s, m).chunks && After(s, m).cfg == s.cfg
  {
    WriteDataFrame(s);
    if m.DoAck? { GetAckFrame(s, m.ev); }
    hide AfterWriteData, AfterGetAck;
  }

  /** What is left in the buffer before `Close`. */
  lemma LeftInBuffer(s: Sender)
    requires Inv(s) && !s.closing
    ensures |s.pending| == |s.stream| - |s.chunks| * s.cfg.blksize
  {
    FullLength(s.chunks, s.cfg.blksize);
  }

  /** While a block of the stream is missing, the next full block is sent. */
  lemma SendsFull(s: Sender)
    requires Inv(s) && s.phase == WriteData && s.cursor == |s.chunks| && !s.closing
    requires (|s.chunks| + 1) * s.cfg.blksize <= |s.stream|
    ensures Sends(s) && |Payload(s)| == s.cfg.blksize
    ensures var s' := AfterWriteData(s); var last := s.window + 1 >= s.cfg.windowsize;
      s' == s.(chunks := s'.chunks, pending := s'.pending, cursor := s.cursor + 1,
               window := if last then 0 else s.window + 1, txOack := false,
               phase := if last then GetAck else WriteData)
      && |s'.chunks| == |s.chunks| + 1
  {
    LeftInBuffer(s);
    assert |s.pending| >= s.cfg.blksize;
    assert BufLen(s) == |s.pending|;
    hide Inv;
  }

  // Laws of every run.

  ghost predicate IsRun(run: seq<Sender>) {
    && |run| > 0
    && run[0].cfg.Valid()
    && run[0] == Fresh(run[0].cfg, run[0].optionsParsed, run[0].ackOpts)
    && forall i :: 0 <= i < |run| - 1 ==> Next(run[i], run[i + 1])
  }

  ghost predicate Next(s: Sender, s': Sender) {
    s.cfg.Valid() && s.cursor <= |s.chunks| && exists m :: Enabled(s, m) && s' == After(s, m)
  }

  lemma {:induction false} RunInv(run: seq<Sender>, i: nat)
    requires IsRun(run) && i < |run|
    ensures Inv(run[i])
  {
    hide Inv, After;
    if i == 0 {
      FreshInv(run[0].cfg, run[0].optionsParsed, run[0].ackOpts);
    } else {
      RunInv(run, i - 1);
      assert Next(run[i - 1], run[(i - 1) + 1]);
      var m :| Enabled(run[i - 1], m) && run[i] == After(run[i - 1], m);
      MoveKeepsInv(run[i - 1], m);
    }
  }

  /** Whatever ACKs and timeouts arrive, the sender never gets more than a window ahead of the
      last ACK it accepted, and its window counter never wraps. */
  lemma {:induction false} WindowBound(run: seq<Sender>, i: nat)
    requires IsRun(run) && i < |run|
    ensures run[i].acked <= run[i].cursor <= run[i].acked + run[i].cfg.windowsize
    ensures run[i].cfg.Valid() && run[i].cursor <= |run[i].chunks|
    ensures Sends(run[i]) ==> run[i].window == run[i].cursor - run[i].acked < run[i].cfg.windowsize
  {
    RunInv(run, i);
  }

  /** Block `k` (counting from 0) is the slice of the written stream that starts at byte
      `k * blksize`, however the stream was split over calls of `Write`; it is full unless it
      is the last block of a closed stream. */
  lemma {:induction false} BlocksOfStream(run: seq<Sender>, i: nat, k: nat)
    requires IsRun(run) && i < |run| && k < |run[i].chunks|
    ensures var s := run[i]; var size := s.cfg.blksize; var c := s.chunks[k];
      && k * size + |c| <= |s.stream| && c == s.stream[k * size..k * size + |c|]
      && (|c| == size || (|c| < size && s.closing && k == |s.chunks| - 1 && k * size + |c| == |s.stream|))
  {
    RunInv(run, i);
    var s := run[i];
    BlockIsSlice(s.chunks, s.cfg.blksize, k);
    if |s.chunks[k]| < s.cfg.blksize {
      BlocksLength(s.chunks, s.cfg.blksize, k);
      assert s.chunks == s.chunks[..k] + [s.chunks[k]];
      FlattenAppend(s.chunks[..k], s.chunks[k]);
    }
  }

  /** What `writeData` may put on the wire: a short block only after `Close`, and a fresh
      block only while no short block has been cut. */
  lemma {:induction false} SentBlocks(run: seq<Sender>, i: nat)
    requires IsRun(run) && i < |run|
    ensures run[i].cfg.Valid() && run[i].cursor <= |run[i].chunks|
    ensures Sends(run[i]) && |Payload(run[i])| < run[i].cfg.blksize ==> run[i].closing
    ensures Sends(run[i]) && run[i].cursor == |run[i].chunks| ==>
              !EndsShort(run[i].chunks, run[i].cfg.blksize)
  {
    RunInv(run, i);
    if run[i].cursor < |run[i].chunks| {
      ReplayedShort(run[i]);
    } else if Sends(run[i]) {
      FreshSize(run[i]);
    }
  }

  /** A wait for an ACK that is given up, times out or meets a fatal packet. */
  predicate Fails(s: Sender, m: Move) {
    m.DoAck? && (Exhausted(s) || m.ev.Timeout? || m.ev.Bad?)
  }

  /** Exactly these leave an error. */
  lemma ErrorExact(s: Sender, m: Move)
    requires s.cfg.Valid() && s.cursor <= |s.chunks| && Enabled(s, m)
    ensures After(s, m).err == NoErr <==> s.err == NoErr && !Fails(s, m)
  {
    WriteDataFrame(s);
    if m.DoAck? { GetAckFrame(s, m.ev); }
    hide AfterWriteData, AfterGetAck;
  }

  /** A recorded error, even that of a single timeout, is never cleared. */
  lemma MoveKeepsError(s: Sender, m: Move)
    requires s.cfg.Valid() && s.cursor <= |s.chunks| && Enabled(s, m) && s.err != NoErr
    ensures After(s, m).err != NoErr
    ensures s.phase == Idle ==> After(s, m) == s
  {
    ErrorExact(s, m);
    hide AfterWriteData, AfterWrite, AfterSendOack, AfterGetAck;
  }

  /** So once an error is recorded, by a timeout or otherwise, no later call succeeds, and an idle
      connection does nothing more. */
  lemma {:induction false} ErrorsStick(run: seq<Sender>, i: nat, j: nat)
    requires IsRun(run) && i <= j < |run| && run[i].err != NoErr
    ensures run[j].err != NoErr
    ensures run[i].phase == Idle ==> run[j] == run[i]
    decreases j - i
  {
    hide After, Fresh, Enabled;
    if i < j {
      ErrorsStick(run, i, j - 1);
      assert Next(run[j - 1], run[(j - 1) + 1]);
      var m :| Enabled(run[j - 1], m) && run[j] == After(run[j - 1], m);
      MoveKeepsError(run[j - 1], m);
    }
  }

  /** The moves `ms` lead from `s` to `s'`. */
  ghost predicate Path(s: Sender, ms: seq<Move>, s': Sender)
    decreases |ms|
  {
    if ms == [] then s' == s
    else
      && s.cfg.Valid() && s.cursor <= |s.chunks| && Enabled(s, ms[0])
      && Path(After(s, ms[0]), ms[1..], s')
  }

  /** No move of `ms` fails where it is made. */
  ghost predicate Faultless(s: Sender, ms: seq<Move>)
    decreases |ms|
  {
    ms == [] ||
    (&& s.cfg.Valid() && s.cursor <= |s.chunks| && Enabled(s, ms[0])
     && !Fails(s, ms[0]) && Faultless(After(s, ms[0]), ms[1..]))
  }

  /** So a connection can still be used, and its `Close` can return nil, if and only if no wait has
      ever failed, however well the transfer went on after it. */
  lemma {:induction false} ErrorFree(s: Sender, ms: seq<Move>, s': Sender)
    requires Path(s, ms, s')
    ensures s'.err == NoErr <==> s.err == NoErr && Faultless(s, ms)
    decreases |ms|
  {
    hide After, Fails, Enabled;
    if ms != [] {
      ErrorExact(s, ms[0]);
      ErrorFree(After(s, ms[0]), ms[1..], s');
    }
  }
}
