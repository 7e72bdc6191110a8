/** Two ends joined by channels of datagram bytes: what is sent is encoded, lies in a receive buffer
    with remains of older datagrams behind it, is validated and read back by the accessors.
    Every run of it is a run of the abstract system of `Fifo`. */
module Wire {
  import opened Bytes
  import opened Transfer
  import opened Endpoints
  import S = SenderSpec
  import R = ReceiverSpec
  import F = Fifo
  import C = Codec

  type Bytestring = seq<byte>

  // From bytes to events.

  function DataBytes(b: Block): Bytestring {
    C.Uint16Bytes(C.DATA) + C.Uint16Bytes(U16(b.num)) + b.payload
  }

  function AckBytes(a: nat): Bytestring {
    C.Uint16Bytes(C.ACK) + C.Uint16Bytes(U16(a))
  }

  /** What `readData` makes of the datagram of `offset` bytes in its buffer. */
  function ReadEvent(buf: Bytestring, offset: nat): C.Access<R.DataEvent>
    requires offset <= |buf|
  {
    match C.Validate(buf, offset)
    case Crash => C.Panic
    case Invalid => C.Ok(R.Bad)
    case Valid =>
      if C.Opcode(buf) == C.DATA then C.Ok(R.Data(Block(C.Uint16(buf[2], buf[3]), buf[4..offset]))) else C.Ok(R.Bad)
  }

  /** What `getAck` makes of it. */
  function AckEvent(buf: Bytestring, offset: nat): C.Access<S.AckEvent>
    requires offset <= |buf|
  {
    match C.Validate(buf, offset)
    case Crash => C.Panic
    case Invalid => C.Ok(S.Bad)
    case Valid =>
      if C.Opcode(buf) == C.ACK then C.Ok(S.Ack(C.Uint16(buf[2], buf[3]))) else C.Ok(S.Bad)
  }

  /** A datagram read into a buffer: cut off where the buffer ends, and followed by what was there. */
  function Received(held: Bytestring, d: Bytestring): Bytestring {
    d[..Min(|held|, |d|)] + held[Min(|held|, |d|)..]
  }

  lemma DataReadBack(held: Bytestring, b: Block)
    requires |held| >= 4 + |b.payload|
    ensures var d := DataBytes(b);
      && |d| == 4 + |b.payload| && |Received(held, d)| == |held|
      && ReadEvent(Received(held, d), |d|) == C.Ok(R.Data(Block(U16(b.num), b.payload)))
  {
    var d := DataBytes(b);
    var buf := Received(held, d);
    assert buf[..|d|] == d;
    C.PlainRoundTrip(buf, |d|, C.DATA, U16(b.num), b.payload);
  }

  lemma AckReadBack(held: Bytestring, a: nat)
    requires |held| >= 4
    ensures var d := AckBytes(a);
      && |d| == 4 && |Received(held, d)| == |held|
      && AckEvent(Received(held, d), 4) == C.Ok(S.Ack(U16(a)))
  {
    var d := AckBytes(a);
    var buf := Received(held, d);
    assert buf[..4] == d == C.Uint16Bytes(C.ACK) + C.Uint16Bytes(U16(a)) + [];
    C.PlainRoundTrip(buf, 4, C.ACK, U16(a), []);
  }

  /** What `readData` does with the bytes it gets, whatever they are: a datagram that the codec refuses,
      and a valid one of another opcode, end the transfer; a valid one whose opcode is 3 is DATA, with
      the number and payload at their places. */
  lemma ReadEventExact(buf: Bytestring, offset: nat)
    requires offset <= |buf|
    ensures var v := C.Validate(buf, offset); var e := ReadEvent(buf, offset);
      && (e == C.Panic <==> v == C.Crash)
      && (v == C.Invalid ==> e == C.Ok(R.Bad))
      && (v == C.Valid ==>
            && 2 <= offset
            && (buf[0] != 0 || buf[1] != 3 ==> e == C.Ok(R.Bad))
            && (buf[0] == 0 && buf[1] == 3 ==>
                  4 <= offset && e == C.Ok(R.Data(Block(buf[2] as int * 0x100 + buf[3] as int, buf[4..offset])))))
  {}

  /** The same for `getAck` and opcode 4. */
  lemma AckEventExact(buf: Bytestring, offset: nat)
    requires offset <= |buf|
    ensures var v := C.Validate(buf, offset); var e := AckEvent(buf, offset);
      && (e == C.Panic <==> v == C.Crash)
      && (v == C.Invalid ==> e == C.Ok(S.Bad))
      && (v == C.Valid ==>
            && 2 <= offset
            && (buf[0] != 0 || buf[1] != 4 ==> e == C.Ok(S.Bad))
            && (buf[0] == 0 && buf[1] == 4 ==>
                  4 <= offset && e == C.Ok(S.Ack(buf[2] as int * 0x100 + buf[3] as int))))
  {}

  /** An ERROR of the peer, as it comes over the wire, is not mistaken for anything else. */
  lemma ErrorReadBack(held: Bytestring, code: nat, msg: Bytestring)
    requires code < 0x1_0000 && C.NulFree(msg) && |held| >= 5 + |msg|
    ensures var d := [0, 5, code / 0x100, code % 0x100] + msg + [0];
      && |Received(held, d)| == |held|
      && C.Validate(Received(held, d), |d|) == C.Valid
      && ReadEvent(Received(held, d), |d|) == C.Ok(R.Bad) && AckEvent(Received(held, d), |d|) == C.Ok(S.Bad)
  {
    var d := [0, 5, code / 0x100, code % 0x100] + msg + [0];
    var buf := Received(held, d);
    assert buf[..|d|] == d == C.Uint16Bytes(C.ERROR) + C.Uint16Bytes(code) + (msg + [0]);
    assert (msg + [0])[..|msg|] == msg;
    C.PlainRoundTrip(buf, |d|, C.ERROR, code, msg + [0]);
  }

  // The system of bytes.

  /** `crashed` says that `validate` has panicked. */
  datatype System = System(s: S.Sender, r: R.Receiver, data: seq<Bytestring>, acks: seq<Bytestring>, crashed: bool)

  /** A delivery comes with the contents of the buffer that it goes to; everything else is as in the
      abstract system. */
  datatype Step = TakeAck(held: Bytestring) | TakeData(held: Bytestring) | Other(step: F.Step)

  function DataMap(data: seq<Block>): seq<Bytestring> {
    seq(|data|, i requires 0 <= i < |data| => DataBytes(data[i]))
  }

  function AckMap(acks: seq<nat>): seq<Bytestring> {
    seq(|acks|, i requires 0 <= i < |acks| => AckBytes(acks[i]))
  }

  ghost predicate Init(sys: System) {
    && Start(sys.s, sys.r)
    && sys.data == [] && !sys.crashed
    && forall i :: 0 <= i < |sys.acks| ==> sys.acks[i] == AckBytes(0)
  }

  /** The receive buffer has room for a block and its header, or is the datagram's own. */
  predicate Ready(sys: System, step: Step) {
    && sys.s.cfg.Valid() && sys.s.cursor <= |sys.s.chunks| && !sys.crashed
    && match step
       case TakeAck(held) => sys.s.phase == S.GetAck && sys.acks != [] && |held| >= 4
       case TakeData(held) =>
         && sys.r.phase == R.ReadData && sys.data != []
         && (|held| == sys.r.cfg.blksize + 4 || |held| == |sys.data[0]|)
       case Other(step) =>
         match step
         case Send(m) => S.Enabled(sys.s, m) && !(m.DoAck? && m.ev.Ack?)
         case Receive(m) => R.Enabled(sys.r, m) && !(m.DoData? && m.ev.Data?)
         case LoseData(i) => i < |sys.data|
         case DupData(i) => i < |sys.data|
         case LoseAck(i) => i < |sys.acks|
         case DupAck(i) => i < |sys.acks|
         case _ => false
  }

  function Apply(sys: System, step: Step): System
    requires Ready(sys, step)
  {
    match step
    case TakeAck(held) =>
      var d := sys.acks[0];
      (match AckEvent(Received(held, d), Min(|held|, |d|))
       case Panic => sys.(crashed := true)
       case Ok(ev) => sys.(s := S.AfterGetAck(sys.s, ev), acks := sys.acks[1..]))
    case TakeData(held) =>
      var d := sys.data[0];
      (match ReadEvent(Received(held, d), Min(|held|, |d|))
       case Panic => sys.(crashed := true)
       case Ok(ev) =>
         var o := R.AfterReadData(sys.r, ev);
         sys.(r := o.r, data := sys.data[1..], acks := sys.acks + AckMap(o.acks)))
    case Other(step) =>
      match step
      case Send(m) =>
        sys.(s := S.After(sys.s, m),
             data := sys.data + if m == S.DoStep && S.Sends(sys.s) then [DataBytes(S.SentBlock(sys.s))] else [])
      case Receive(m) =>
        var o := R.After(sys.r, m);
        sys.(r := o.r, acks := sys.acks + AckMap(o.acks))
      case LoseData(i) => sys.(data := sys.data[..i] + sys.data[i + 1..])
      case DupData(i) => sys.(data := sys.data[..i + 1] + sys.data[i..])
      case LoseAck(i) => sys.(acks := sys.acks[..i] + sys.acks[i + 1..])
      case DupAck(i) => sys.(acks := sys.acks[..i + 1] + sys.acks[i..])
  }

  ghost predicate Next(sys: System, sys': System) {
    exists step :: Ready(sys, step) && sys' == Apply(sys, step)
  }

  ghost predicate IsRun(run: seq<System>) {
    && |run| > 0 && Init(run[0])
    && forall i :: 0 <= i < |run| - 1 ==> Next(run[i], run[i + 1])
  }

  // What the abstract system looks like in bytes.

  /** The receiver when only 16 bits of the number of the packet at hand are known. */
  function Narrow(r: R.Receiver): R.Receiver {
    r.(rx := Block(U16(r.rx.num), r.rx.payload))
  }

  function Encoded(f: F.System): System {
    System(f.s, Narrow(f.r), DataMap(f.data), AckMap(f.acks), false)
  }

  /** No move of the receiver looks at more than these 16 bits. */
  lemma NarrowMove(r: R.Receiver, m: R.Move)
    requires R.Enabled(r, m) && !(m.DoData? && m.ev.Data?)
    ensures var o := R.After(r, m); R.After(Narrow(r), m) == R.Output(Narrow(o.r), o.acks)
  {
    assert R.Diff(Narrow(r)) == R.Diff(r);
  }

  lemma NarrowData(r: R.Receiver, b: Block)
    requires r.phase == R.ReadData
    ensures var o := R.AfterReadData(r, R.Data(b));
      R.AfterReadData(Narrow(r), R.Data(Block(U16(b.num), b.payload))) == R.Output(Narrow(o.r), o.acks)
  {}

  lemma NarrowAck(s: S.Sender, a: nat)
    ensures S.AfterGetAck(s, S.Ack(U16(a))) == S.AfterGetAck(s, S.Ack(a))
  {}

  lemma AckMapAppend(a: seq<nat>, b: seq<nat>)
    ensures AckMap(a + b) == AckMap(a) + AckMap(b)
  {}

  lemma DataMapAppend(a: seq<Block>, b: seq<Block>)
    ensures DataMap(a + b) == DataMap(a) + DataMap(b)
  {}

  /** The step of the abstract system that a step on bytes stands for. */
  function Abstract(step: Step): F.Step {
    match step
    case TakeAck(_) => F.TakeAck
    case TakeData(_) => F.TakeData
    case Other(step) => step
  }

  lemma TakeAckMatches(f: F.System, held: Bytestring)
    requires F.Linked(f) && Ready(Encoded(f), TakeAck(held))
    ensures F.Ready(f, F.TakeAck) && Apply(Encoded(f), TakeAck(held)) == Encoded(F.Apply(f, F.TakeAck))
  {
    AckReadBack(held, f.acks[0]);
    NarrowAck(f.s, f.acks[0]);
    assert AckMap(f.acks)[0] == AckBytes(f.acks[0]);
    assert AckMap(f.acks)[1..] == AckMap(f.acks[1..]);
  }

  /** No block in flight is too long for the receive buffer. */
  lemma PayloadFits(f: F.System)
    requires F.Linked(f) && f.data != []
    ensures |f.data[0].payload| <= f.r.cfg.blksize
  {
    assert F.InFlight(f)[|F.InFlight(f)| - |f.data|] == f.data[0];
  }

  lemma TakeDataMatches(f: F.System, held: Bytestring)
    requires F.Linked(f) && Ready(Encoded(f), TakeData(held))
    ensures F.Ready(f, F.TakeData) && Apply(Encoded(f), TakeData(held)) == Encoded(F.Apply(f, F.TakeData))
  {
    PayloadFits(f);
    var b := f.data[0];
    assert DataMap(f.data)[0] == DataBytes(b);
    DataReadBack(held, b);
    NarrowData(f.r, b);
    AckMapAppend(f.acks, R.AfterReadData(f.r, R.Data(b)).acks);
    assert DataMap(f.data)[1..] == DataMap(f.data[1..]);
  }

  lemma ChannelMatches(f: F.System, step: F.Step)
    requires Ready(Encoded(f), Other(step)) && !step.Send? && !step.Receive?
    ensures F.Ready(f, step) && Apply(Encoded(f), Other(step)) == Encoded(F.Apply(f, step))
  {
    match step
    case LoseData(i) => assert DataMap(f.data[..i] + f.data[i + 1..]) == DataMap(f.data)[..i] + DataMap(f.data)[i + 1..];
    case DupData(i) => assert DataMap(f.data[..i + 1] + f.data[i..]) == DataMap(f.data)[..i + 1] + DataMap(f.data)[i..];
    case LoseAck(i) => assert AckMap(f.acks[..i] + f.acks[i + 1..]) == AckMap(f.acks)[..i] + AckMap(f.acks)[i + 1..];
    case DupAck(i) => assert AckMap(f.acks[..i + 1] + f.acks[i..]) == AckMap(f.acks)[..i + 1] + AckMap(f.acks)[i..];
  }

  lemma EndMatches(f: F.System, step: F.Step)
    requires Ready(Encoded(f), Other(step)) && (step.Send? || step.Receive?)
    ensures F.Ready(f, step) && Apply(Encoded(f), Other(step)) == Encoded(F.Apply(f, step))
  {
    match step
    case Send(m) =>
      hide S.After, S.Sends, S.SentBlock;
      if m == S.DoStep && S.Sends(f.s) {
        DataMapAppend(f.data, [S.SentBlock(f.s)]);
      }
    case Receive(m) =>
      NarrowMove(f.r, m);
      hide R.After;
      AckMapAppend(f.acks, R.After(f.r, m).acks);
  }

  /** Every step on bytes is a step of the abstract system, and nothing panics. */
  lemma StepMatches(f: F.System, step: Step)
    requires F.Linked(f) && Ready(Encoded(f), step)
    ensures F.Ready(f, Abstract(step)) && Apply(Encoded(f), step) == Encoded(F.Apply(f, Abstract(step)))
  {
    hide F.Linked, Apply, F.Apply, Encoded;
    match step
    case TakeAck(held) => TakeAckMatches(f, held);
    case TakeData(held) => TakeDataMatches(f, held);
    case Other(step) => if step.Send? || step.Receive? { EndMatches(f, step); } else { ChannelMatches(f, step); }
  }

  lemma InitMatches(sys: System) returns (f: F.System)
    requires Init(sys)
    ensures F.Init(f) && sys == Encoded(f)
  {
    f := F.System(sys.s, sys.r, [], seq(|sys.acks|, _ => 0));
  }

  /** Every run on bytes is the encoding of a run of the abstract system. */
  lemma {:induction false} RunMatches(run: seq<System>, i: nat) returns (fs: seq<F.System>)
    requires IsRun(run) && i < |run|
    ensures F.IsRun(fs) && |fs| == i + 1 && run[i] == Encoded(fs[i])
  {
    hide Encoded, Apply, F.Apply, F.Init, Init;
    if i == 0 {
      var f := InitMatches(run[0]);
      fs := [f];
    } else {
      fs := RunMatches(run, i - 1);
      F.RunLinked(fs, i - 1);
      var f := fs[i - 1];
      assert Next(run[i - 1], run[(i - 1) + 1]);
      var step :| Ready(run[i - 1], step) && run[i] == Apply(run[i - 1], step);
      StepMatches(f, step);
      hide F.Linked;
      var f' := F.Apply(f, Abstract(step));
      assert F.Next(f, f');
      fs := AppendRun(fs, f');
    }
  }

  lemma AppendRun(fs: seq<F.System>, f: F.System) returns (fs': seq<F.System>)
    requires F.IsRun(fs) && F.Next(fs[|fs| - 1], f)
    ensures F.IsRun(fs') && fs' == fs + [f]
  {
    hide F.Next, F.Init;
    fs' := fs + [f];
    forall k | 0 <= k < |fs'| - 1 ensures F.Next(fs'[k], fs'[k + 1]) {
      if k < |fs| - 1 {
        assert F.Next(fs[k], fs[k + 1]);
      } else {
        assert fs'[k] == fs[|fs| - 1];
      }
    }
  }

  /** End-to-end safety and completion on bytes: over channels that may lose, double and delay
      datagrams, with 16-bit block numbers on the wire and any remains in the receive buffers, no
      datagram makes `validate` panic, what the receiver has taken is a prefix of the stream, and it is
      all of it when the receiver is done and when `Close` returns nil. */
  lemma {:induction false} Safety(run: seq<System>, i: nat)
    requires IsRun(run) && i < |run|
    ensures !run[i].crashed
    ensures run[i].r.accepted <= run[i].s.stream
    ensures run[i].r.done ==> run[i].s.closing && run[i].r.accepted == run[i].s.stream
    ensures ClosedNil(run[i].s) ==> run[i].r.done && run[i].r.accepted == run[i].s.stream
  {
    var fs := RunMatches(run, i);
    F.Safety(fs, i);
    F.Completion(fs, i);
  }
}
