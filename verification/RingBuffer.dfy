/** The replay cache of the sender: a ring of `slots` fixed-size slots that remembers the last
    blocks read, so that they can be read again. It is proved against the plain list of every
    block ever read and a cursor into that list. */
module RingBuffer {
  import opened Bytes
  import opened SenderSpec

  /** Slots follow one another: `SlotBytes(k, size)` is where slot `k` starts. */
  lemma {:induction false} SlotsApart(a: nat, b: nat, size: nat)
    requires a < b
    ensures SlotBytes(a, size) + size <= SlotBytes(b, size)
  {
    if a + 1 < b {
      SlotsApart(a, b - 1, size);
    }
  }

  /** Blocks less than a ring apart use different slots. */
  lemma SlotsDiffer(i: nat, j: nat, slots: nat)
    requires i < j < i + slots
    ensures i % slots != j % slots
  {
    var q := j / slots - i / slots;
    assert i % slots == j % slots ==> j - i == q * slots;
    assert q >= 1 ==> q * slots >= slots;
    assert q <= 0 ==> q * slots <= 0;
  }

  /** The bytes stored in slot `k`. */
  ghost function Slot(buf: seq<byte>, lens: seq<nat>, k: nat, slots: nat, size: nat): seq<byte>
    requires k < slots <= |lens| && |buf| == SlotBytes(slots, size) && lens[k] <= size
  {
    SlotsApart(k, slots, size);
    buf[SlotBytes(k, size)..SlotBytes(k, size) + lens[k]]
  }

  /** The ring holds the last `slots` blocks of the list, each in the slot of its index. */
  ghost predicate Holds(buf: seq<byte>, lens: seq<nat>, chunks: seq<seq<byte>>, slots: nat, size: nat) {
    && 1 <= slots <= |lens| && size >= 1
    && |buf| == SlotBytes(slots, size)
    && (forall k :: 0 <= k < slots ==> lens[k] <= size)
    && (forall i :: 0 <= i < |chunks| && |chunks| - i <= slots ==>
          Slot(buf, lens, i % slots, slots, size) == chunks[i])
  }

  /** `buf` with `data` written over it from position `at`. */
  function Overwrite(buf: seq<byte>, at: nat, data: seq<byte>): (r: seq<byte>)
    requires at + |data| <= |buf|
    ensures |r| == |buf|
  {
    buf[..at] + data + buf[at + |data|..]
  }

  /** Writing to one slot leaves the others alone. */
  lemma OtherSlot(buf: seq<byte>, lens: seq<nat>, k: nat, slot: nat, slots: nat, size: nat, data: seq<byte>)
    requires k < slots <= |lens| && slot < slots && k != slot
    requires |buf| == SlotBytes(slots, size) && lens[k] <= size && |data| <= size
    requires SlotBytes(slot, size) + |data| <= |buf|
    ensures Slot(Overwrite(buf, SlotBytes(slot, size), data), lens[slot := |data|], k, slots, size)
         == Slot(buf, lens, k, slots, size)
  {
    SlotsApart(k, slots, size);
    if k < slot { SlotsApart(k, slot, size); } else { SlotsApart(slot, k, size); }
  }

  /** Storing a new block at the head, over the oldest one, keeps the ring right. */
  lemma StoreHolds(buf: seq<byte>, lens: seq<nat>, chunks: seq<seq<byte>>, slots: nat, size: nat, data: seq<byte>)
    requires Holds(buf, lens, chunks, slots, size) && |data| <= size
    ensures var slot := |chunks| % slots;
      && SlotBytes(slot, size) + |data| <= |buf|
      && Holds(Overwrite(buf, SlotBytes(slot, size), data), lens[slot := |data|], chunks + [data], slots, size)
  {
    var slot := |chunks| % slots;
    SlotsApart(slot, slots, size);
    var buf', lens', chunks' := Overwrite(buf, SlotBytes(slot, size), data), lens[slot := |data|], chunks + [data];
    forall i | 0 <= i < |chunks'| && |chunks'| - i <= slots
      ensures Slot(buf', lens', i % slots, slots, size) == chunks'[i]
    {
      if i < |chunks| {
        SlotsDiffer(i, |chunks|, slots);
        OtherSlot(buf, lens, i % slots, slot, slots, size, data);
      }
    }
  }

  /** Counting every block as full never understates their bytes, and is exact when, and only
      when, every block is full. */
  lemma {:induction false} LenBound(chunks: seq<seq<byte>>, cursor: nat, size: nat)
    requires cursor <= |chunks| && forall i :: 0 <= i < |chunks| ==> |chunks[i]| <= size
    ensures |Flatten(chunks[cursor..])| <= SlotBytes(|chunks| - cursor, size)
    ensures |Flatten(chunks[cursor..])| == SlotBytes(|chunks| - cursor, size)
       <==> forall i :: cursor <= i < |chunks| ==> |chunks[i]| == size
    decreases |chunks|
  {
    if cursor < |chunks| {
      var init := chunks[..|chunks| - 1];
      LenBound(init, cursor, size);
      assert chunks[cursor..][..|chunks| - 1 - cursor] == init[cursor..];
      assert chunks[cursor..] == init[cursor..] + [chunks[|chunks| - 1]];
    }
  }

  class Ring {
    const slots: nat
    const size: nat
    const buf: array<byte>
    const slotsLen: array<nat>
    var pending: seq<byte>
    var current: nat
    var head: nat
    ghost var chunks: seq<seq<byte>>

    ghost predicate Valid()
      reads this, buf, slotsLen
    {
      && current <= head == |chunks|
      && (forall i :: 0 <= i < |chunks| ==> |chunks[i]| <= size)
      && Holds(buf[..], slotsLen[..], chunks, slots, size)
    }

    constructor (slots: nat, size: nat)
      requires slots >= 1 && size >= 1
      ensures Valid() && fresh(buf) && fresh(slotsLen)
      ensures this.slots == slots && this.size == size
      ensures chunks == [] && pending == [] && current == 0
    {
      this.slots, this.size := slots, size;
      buf := new byte[size * slots](_ => 0);
      slotsLen := new nat[size * slots](_ => 0);
      pending, current, head, chunks := [], 0, 0, [];
      new;
      SlotBytesProduct(slots, size);
      assert slots <= size * slots;
    }

    /** `bytes.Buffer.Write`. */
    method Write(p: seq<byte>) returns (n: nat)
      requires Valid()
      modifies this`pending
      ensures Valid()
      ensures pending == old(pending) + p && n == |p|
    {
      pending := pending + p;
      n := |p|;
    }

    /** The bytes from the cursor on: the blocks to be replayed and the buffer. */
    ghost function Unread(): seq<byte>
      requires Valid()
      reads this, buf, slotsLen
    {
      Flatten(chunks[current..]) + pending
    }

    /** An upper bound of the bytes that can be read, exact if and only if every block to be
        replayed is full. */
    method Len() returns (n: int)
      requires Valid()
      ensures n == |pending| + SlotBytes(head - current, size)
      ensures n >= |Unread()|
      ensures n == |Unread()| <==> forall i :: current <= i < head ==> |chunks[i]| == size
    {
      SlotBytesProduct(head - current, size);
      LenBound(chunks, current, size);
      var bufInUse := (head - current) * size;
      n := |pending| + bufInUse;
    }

    /** At the head, cuts the next block off the buffer and remembers it. Behind the head,
        replays the block last stored in the slot of `current`; that is block `current` itself
        exactly when it is at most `slots` behind (see `ReplayIndex`). */
    method Read(p: array<byte>) returns (n: nat, eof: bool)
      requires Valid() && p.Length <= size && p != buf
      modifies this, buf, slotsLen, p
      ensures Valid()
      ensures current == old(current) + 1 && n <= p.Length
      ensures old(current) == old(head) ==>
                var k := Min(p.Length, |old(pending)|);
                && p[..n] == old(pending)[..k] && pending == old(pending)[k..]
                && chunks == old(chunks) + [p[..n]]
                && eof == (old(pending) == [] && p.Length > 0)
      ensures old(current) < old(head) ==>
                && pending == old(pending) && chunks == old(chunks) && !eof
                && var block := chunks[ReplayIndex(old(current), |chunks|, slots)];
                   p[..n] == block[..Min(p.Length, |block|)]
    {
      if current != head {
        n := Replay(p);
        current := current + 1;
        return n, false;
      }
      n, eof := TakePending(p);
      Store(p, n);
      current := current + 1;
      head := current;
    }

    /** Copies the slot of `current` into `p`. */
    method Replay(p: array<byte>) returns (n: nat)
      requires Valid() && p.Length <= size && p != buf && current < head
      modifies p
      ensures var block := chunks[ReplayIndex(current, head, slots)];
        n == Min(p.Length, |block|) && p[..n] == block[..n]
    {
      var slot := current % slots;
      var offset := slot * size;
      SlotBytesProduct(slot, size);
      SlotsApart(slot, slots, size);
      ghost var j := ReplayIndex(current, head, slots);
      ReplaySlot(current, head, slots);
      assert Slot(buf[..], slotsLen[..], j % slots, slots, size) == chunks[j];
      n := Min(p.Length, slotsLen[slot]);
      for i := 0 to n
        invariant p[..i] == buf[offset..offset + i]
      {
        p[i] := buf[offset + i];
      }
    }

    /** `bytes.Buffer.Read`. */
    method TakePending(p: array<byte>) returns (n: nat, eof: bool)
      requires p != buf
      modifies p, `pending
      ensures n == Min(p.Length, |old(pending)|) && p[..n] == old(pending)[..n]
      ensures pending == old(pending)[n..] && eof == (old(pending) == [] && p.Length > 0)
    {
      n := Min(p.Length, |pending|);
      eof := pending == [] && p.Length > 0;
      for i := 0 to n
        modifies p
        invariant p[..i] == pending[..i]
      {
        p[i] := pending[i];
      }
      pending := pending[n..];
    }

    /** Copies the first `n` bytes of `p` into the slot at the head. */
    method Store(p: array<byte>, n: nat)
      requires current == head == |chunks| && p != buf && n <= p.Length && n <= size
      requires Holds(buf[..], slotsLen[..], chunks, slots, size)
      modifies buf, slotsLen, `chunks
      ensures chunks == old(chunks) + [p[..n]]
      ensures Holds(buf[..], slotsLen[..], chunks, slots, size)
    {
      var slot := current % slots;
      var offset := slot * size;
      SlotBytesProduct(slot, size);
      StoreHolds(buf[..], slotsLen[..], chunks, slots, size, p[..n]);
      for i := 0 to n
        modifies buf
        invariant buf[..] == Overwrite(old(buf[..]), offset, p[..i])
      {
        buf[offset + i] := p[i];
      }
      slotsLen[slot] := n;
      assert slotsLen[..] == old(slotsLen[..])[slot := n];
      chunks := chunks + [p[..n]];
    }

    /** Moves the cursor back, however far. */
    method UnreadSlots(n: nat)
      requires Valid() && n <= current
      modifies this`current
      ensures Valid() && current == old(current) - n
    {
      current := current - n;
    }
  }
}
