/** Octets, 16-bit projections and block lists, shared by every other module. */
module Bytes {

  type byte = b: int | 0 <= b < 256

  /** The Go conversion to uint16 of a mathematical integer. */
  function U16(x: int): (r: nat)
    ensures r < 0x1_0000
  {
    x % 0x1_0000
  }

  lemma U16Next(x: nat)
    ensures U16(x + 1) == if U16(x) == 0xFFFF then 0 else U16(x) + 1
    ensures U16(U16(x)) == U16(x)
  {}

  lemma U16Back(x: nat, b: nat)
    requires b <= U16(x)
    ensures U16(x) - b <= x && U16(x - (U16(x) - b)) == b
  {}

  /** The bytes of a text in ASCII. */
  function Ascii(text: string): seq<byte>
    requires forall i :: 0 <= i < |text| ==> text[i] < 128 as char
  {
    seq(|text|, i requires 0 <= i < |text| => text[i] as int as byte)
  }

  function Min(a: nat, b: nat): nat {
    if a < b then a else b
  }

  lemma Assoc<T>(a: seq<T>, b: seq<T>, c: seq<T>)
    ensures a + (b + c) == a + b + c
  {}

  /** Division with remainder is unique. */
  lemma ModUnique(x: int, m: nat, q: int, r: nat)
    requires m >= 1 && r < m && x == q * m + r
    ensures x % m == r && x / m == q
  {
    var d := x / m - q;
    assert d * m == r - x % m;
    assert d >= 1 ==> d * m >= m;
    assert d <= -1 ==> -d * m >= m;
  }

  /** The bytes of a list of blocks, in order. */
  function Flatten(cs: seq<seq<byte>>): seq<byte> {
    if cs == [] then [] else Flatten(cs[..|cs| - 1]) + cs[|cs| - 1]
  }

  lemma FlattenAppend(cs: seq<seq<byte>>, c: seq<byte>)
    ensures Flatten(cs + [c]) == Flatten(cs) + c
  {
    assert (cs + [c])[..|cs|] == cs;
  }

  lemma {:induction false} FlattenPrefix(cs: seq<seq<byte>>, k: nat)
    requires k <= |cs|
    ensures Flatten(cs[..k]) <= Flatten(cs)
  {
    if k == |cs| {
      assert cs[..k] == cs;
    } else {
      FlattenPrefix(cs[..|cs| - 1], k);
      assert cs[..|cs| - 1][..k] == cs[..k];
    }
  }

  /** Every block but the last one has exactly `size` bytes, and none has more. */
  ghost predicate Blocked(cs: seq<seq<byte>>, size: nat) {
    && (forall i :: 0 <= i < |cs| ==> |cs[i]| <= size)
    && (forall i :: 0 <= i < |cs| - 1 ==> |cs[i]| == size)
  }

  /** The list ends in a block shorter than `size`, the mark of a finished transfer. */
  predicate EndsShort(cs: seq<seq<byte>>, size: nat) {
    |cs| > 0 && |cs[|cs| - 1]| < size
  }

  /** Block `k` is the slice of the whole that starts at byte `k * size`. */
  lemma {:induction false} BlockIsSlice(cs: seq<seq<byte>>, size: nat, k: nat)
    requires Blocked(cs, size) && k < |cs|
    ensures |Flatten(cs)| >= k * size + |cs[k]|
    ensures cs[k] == Flatten(cs)[k * size..k * size + |cs[k]|]
  {
    BlocksLength(cs, size, k);
    FlattenPrefix(cs, k + 1);
    assert cs[..k + 1] == cs[..k] + [cs[k]];
    FlattenAppend(cs[..k], cs[k]);
  }

  lemma {:induction false} BlocksLength(cs: seq<seq<byte>>, size: nat, k: nat)
    requires Blocked(cs, size) && k < |cs|
    ensures |Flatten(cs[..k])| == k * size
  {
    if k > 0 {
      BlocksLength(cs, size, k - 1);
      assert cs[..k] == cs[..k - 1] + [cs[k - 1]];
      FlattenAppend(cs[..k - 1], cs[k - 1]);
    }
  }

  lemma {:induction false} FullLength(cs: seq<seq<byte>>, size: nat)
    requires Blocked(cs, size) && !EndsShort(cs, size)
    ensures |Flatten(cs)| == |cs| * size
  {
    var k := |cs|;
    if k > 0 {
      BlocksLength(cs, size, k - 1);
      assert cs == cs[..k - 1] + [cs[k - 1]];
      FlattenAppend(cs[..k - 1], cs[k - 1]);
    }
  }
}
