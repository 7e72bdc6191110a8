/** What the two ends of a transfer have in common, whatever the network between them. */
module Endpoints {
  import opened Bytes
  import opened Transfer
  import S = SenderSpec
  import R = ReceiverSpec

  /** Both ends have negotiated the same block and window sizes. */
  predicate SameSizes(s: S.Sender, r: R.Receiver) {
    r.cfg.blksize == s.cfg.blksize && r.cfg.windowsize == s.cfg.windowsize
  }

  ghost predicate Start(s: S.Sender, r: R.Receiver) {
    && s.cfg.Valid()
    && s == S.Fresh(s.cfg, s.optionsParsed, s.ackOpts)
    && r == R.Fresh(r.cfg)
    && SameSizes(s, r)
  }

  /** `Close` has returned nil after transfer setup. */
  predicate ClosedNil(s: S.Sender) {
    s.closing && s.phase == S.Idle && s.err == NoErr
  }

  /** The receiver has taken exactly the first `count` blocks, and is done when the last of
      them is the short one. */
  ghost predicate AcceptedOk(s: S.Sender, r: R.Receiver)
    requires r.count <= |s.chunks|
  {
    && r.accepted == Flatten(s.chunks[..r.count])
    && (r.done <==> EndsShort(s.chunks[..r.count], s.cfg.blksize))
  }

  lemma AcceptedFrame(s: S.Sender, s': S.Sender, r: R.Receiver)
    requires r.count <= |s.chunks| && AcceptedOk(s, r)
    requires s.chunks <= s'.chunks && s'.cfg == s.cfg
    ensures AcceptedOk(s', r)
  {
    assert s'.chunks[..r.count] == s.chunks[..r.count];
  }

  /** Taking the block with the next number extends the accepted prefix by that block. */
  lemma AcceptNext(s: S.Sender, r: R.Receiver)
    requires r.count < |s.chunks| && AcceptedOk(s, r) && SameSizes(s, r) && !r.done
    requires r.phase == R.AckData && R.Diff(r) == 1 && r.rx.payload == s.chunks[r.count]
    ensures AcceptedOk(s, R.AfterAckData(r).r)
  {
    var c := r.count;
    assert s.chunks[..c + 1] == s.chunks[..c] + [s.chunks[c]];
    FlattenAppend(s.chunks[..c], s.chunks[c]);
  }

  /** What the receiver holds is a prefix of the stream, and all of it when it is done. */
  lemma AcceptedIsPrefix(s: S.Sender, r: R.Receiver)
    requires S.Inv(s) && r.count <= |s.chunks| && AcceptedOk(s, r)
    ensures r.accepted <= s.stream
    ensures r.done ==> s.closing && r.accepted == s.stream
    ensures r.count == |s.chunks| && EndsShort(s.chunks, s.cfg.blksize) ==> r.done
  {
    FlattenPrefix(s.chunks, r.count);
    assert s.chunks[..|s.chunks|] == s.chunks;
    if r.done {
      assert r.count == |s.chunks|;
    }
  }
}
