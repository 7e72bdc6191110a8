/** What the receiver keeps under every sequence of reads, packets and timeouts. */
module ReceiverLaws {
  import opened Bytes
  import opened Transfer
  import opened ReceiverSpec

  lemma ReadKeepsInv(r: Receiver)
    requires Inv(r) && r.phase == Read
    ensures Inv(AfterRead(r))
  {
    var k := Min(r.want, |r.rxBuf|);
    assert r.returned + r.rxBuf[..k] + r.rxBuf[k..] == r.returned + r.rxBuf;
    assert k == |r.rxBuf| ==> r.rxBuf[..k] == r.rxBuf;
  }

  lemma AckDataKeepsInv(r: Receiver)
    requires Inv(r) && r.phase == AckData
    ensures Inv(AfterAckData(r).r)
  {
    assert r.returned + (r.rxBuf + r.rx.payload) == r.returned + r.rxBuf + r.rx.payload;
  }

  lemma MoveKeepsInv(r: Receiver, m: Move)
    requires Inv(r) && Enabled(r, m)
    ensures Inv(After(r, m).r)
  {
    if m.DoStep? {
      if r.phase == Read { ReadKeepsInv(r); } else { AckDataKeepsInv(r); }
    }
  }

  /** How `ackData` reacts, in terms of unbounded block numbers: it takes the next block, answers a
      gap within the window once, and passes over a block it already has, as long as the 16-bit
      distance cannot be mistaken. */
  lemma Reacts(r: Receiver)
    requires Inv(r) && r.phase == AckData
    ensures var o := AfterAckData(r); var num := r.rx.num; var w := r.cfg.windowsize;
      && (num == r.count + 1 ==>
            o.r.count == num && o.r.accepted == r.accepted + r.rx.payload && !o.r.catchup)
      && (r.count + 1 < num <= r.count + w ==>
            o.r == r.(window := if r.catchup then r.window else 0, lastAck := if r.catchup then r.lastAck else r.count,
                      catchup := true, phase := Read)
            && o.acks == if r.catchup then [] else [r.count])
      && (r.count + w < num + 0x1_0000 && num <= r.count ==> o == Output(r.(phase := Read), []))
  {
    hide Accept;
    assert r.rx.num == r.count + 1 ==> AfterAckData(r) == Accept(r);
    AcceptTakes(r);
  }

  lemma AcceptTakes(r: Receiver)
    ensures Accept(r).r.count == r.count + 1 && !Accept(r).r.catchup
    ensures Accept(r).r.accepted == r.accepted + r.rx.payload
  {}

  // The acknowledgement discipline of section 4 of RFC 7440.

  /** A receiver with the ACKs it has sent and the number of those sent because of a gap since
      the last block was taken. */
  datatype Traced = Traced(r: Receiver, acks: seq<nat>, gapAcks: nat)

  predicate TakesBlock(r: Receiver, m: Move) {
    m == DoStep && r.phase == AckData && Diff(r) == 1
  }

  function Traces(t: Traced, m: Move): Traced
    requires Enabled(t.r, m)
  {
    var o := After(t.r, m);
    Traced(o.r, t.acks + o.acks,
           if TakesBlock(t.r, m) then 0
           else if m == DoStep && t.r.phase == AckData then t.gapAcks + |o.acks|
           else t.gapAcks)
  }

  ghost predicate Next(t: Traced, t': Traced) {
    exists m :: Enabled(t.r, m) && t' == Traces(t, m)
  }

  ghost predicate IsRun(run: seq<Traced>) {
    && |run| > 0 && run[0].r.cfg.Valid() && run[0] == Traced(Fresh(run[0].r.cfg), [], 0)
    && forall i :: 0 <= i < |run| - 1 ==> Next(run[i], run[i + 1])
  }

  /** The last ACK sent, or block 0, which setup has acknowledged. */
  function LastOf(acks: seq<nat>): nat {
    if acks == [] then 0 else acks[|acks| - 1]
  }

  ghost predicate Disciplined(t: Traced) {
    && (forall i, j :: 0 <= i < j < |t.acks| ==> t.acks[i] <= t.acks[j])
    && (forall i :: 0 <= i < |t.acks| ==> t.acks[i] <= t.r.lastAck)
    && t.r.lastAck == LastOf(t.acks)
    && t.gapAcks == if t.r.catchup then 1 else 0
  }

  /** Every ACK carries the block just reached, or the one the receiver is waiting after. */
  lemma AckIsCurrent(r: Receiver, m: Move)
    requires Inv(r) && Enabled(r, m)
    ensures var o := After(r, m);
      && (o.acks == [] || (o.acks == [o.r.count] && o.r.lastAck == o.r.count && o.r.window == 0))
      && r.count <= o.r.count && r.lastAck <= o.r.lastAck
      && (o.acks == [] ==> o.r.lastAck == r.lastAck)
  {}

  lemma MoveDisciplined(t: Traced, m: Move)
    requires Inv(t.r) && Enabled(t.r, m) && Disciplined(t)
    ensures Disciplined(Traces(t, m))
  {
    AckIsCurrent(t.r, m);
    GapCount(t, m);
    var t' := Traces(t, m);
    hide Inv, After;
    assert t'.acks == t.acks || t'.acks == t.acks + [t'.r.lastAck];
  }

  lemma GapCount(t: Traced, m: Move)
    requires Enabled(t.r, m) && (t.gapAcks == if t.r.catchup then 1 else 0)
    ensures Traces(t, m).gapAcks == if Traces(t, m).r.catchup then 1 else 0
  {}

  lemma {:induction false} RunDisciplined(run: seq<Traced>, i: nat)
    requires IsRun(run) && i < |run|
    ensures Inv(run[i].r) && Disciplined(run[i])
  {
    hide Inv, Disciplined, Traces;
    if i == 0 {
      assert Inv(run[0].r) && Disciplined(run[0]) by {
        StartDisciplined(run[0].r.cfg);
      }
    } else {
      RunDisciplined(run, i - 1);
      assert Next(run[i - 1], run[(i - 1) + 1]);
      var m :| Enabled(run[i - 1].r, m) && run[i] == Traces(run[i - 1], m);
      MoveKeepsInv(run[i - 1].r, m);
      MoveDisciplined(run[i - 1], m);
      assert run[i].r == After(run[i - 1].r, m).r by { TracesState(run[i - 1], m); }
    }
  }

  lemma StartDisciplined(cfg: Config)
    requires cfg.Valid()
    ensures Inv(Fresh(cfg)) && Disciplined(Traced(Fresh(cfg), [], 0))
  {}

  lemma TracesState(t: Traced, m: Move)
    requires Enabled(t.r, m)
    ensures Traces(t, m).r == After(t.r, m).r
  {}

  /** For every input: ACK numbers never decrease, the last one is never a window or more
      behind the blocks taken, and at most one ACK is provoked by a gap between two blocks taken
      in order. */
  lemma {:induction false} AckDiscipline(run: seq<Traced>, i: nat)
    requires IsRun(run) && i < |run|
    ensures forall j, k :: 0 <= j < k < |run[i].acks| ==> run[i].acks[j] <= run[i].acks[k]
    ensures LastOf(run[i].acks) <= run[i].r.count < LastOf(run[i].acks) + run[i].r.cfg.windowsize
    ensures run[i].gapAcks <= 1
  {
    RunDisciplined(run, i);
  }
}
