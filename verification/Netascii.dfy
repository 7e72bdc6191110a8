/** The netascii encoder and decoder (section 1 of RFC 1350): LF travels as CR LF and a bare CR as
    CR NUL. */
module Netascii {
  import opened Bytes

  const CR: byte := 13
  const LF: byte := 10
  const NUL: byte := 0

  // Encoding.

  /** What is written for `b` after `last`. */
  function EncodeByte(last: byte, b: byte): seq<byte> {
    if b == LF && last != CR then [CR, LF]
    else if last == CR && b != LF && b != NUL then [NUL, b]
    else [b]
  }

  function Encode(last: byte, s: seq<byte>): seq<byte> {
    if s == [] then [] else Encode(last, s[..|s| - 1]) + EncodeByte(Last(last, s[..|s| - 1]), s[|s| - 1])
  }

  /** The last byte of `s`, or `last` when there is none. */
  function Last(last: byte, s: seq<byte>): byte {
    if s == [] then last else s[|s| - 1]
  }

  /** The encoder never needs to touch `s`: after `last`, every LF follows a CR and every CR is
      followed by LF or NUL. */
  ghost predicate Clean(last: byte, s: seq<byte>) {
    forall i :: 0 <= i < |s| ==> EncodeByte(Last(last, s[..i]), s[i]) == [s[i]]
  }

  class Writer {
    var last: byte
    var out: seq<byte>

    constructor ()
      ensures last == NUL && out == []
    {
      last, out := NUL, [];
    }

    /** `Write`: the count returned is that of the input, though more may have been written. */
    method Write(p: seq<byte>) returns (n: nat)
      modifies this
      ensures out == old(out) + Encode(old(last), p) && last == Last(old(last), p)
      ensures n == |p|
    {
      var written := 0;
      assert old(out) + Encode(old(last), p[..0]) == out;
      for i := 0 to |p|
        invariant out == old(out) + Encode(old(last), p[..i]) && last == Last(old(last), p[..i])
        invariant written >= i
      {
        var current := p[i];
        assert p[..i + 1][..i] == p[..i];
        assert out + EncodeByte(last, current)
            == old(out) + (Encode(old(last), p[..i]) + EncodeByte(last, current));
        ghost var before, was := out, last;
        if current == LF && last != CR {
          out := out + [CR];
          last := CR;
          written := written + 1;
        } else if last == CR && current != LF && current != NUL {
          out := out + [NUL];
          last := NUL;
          written := written + 1;
        }
        out := out + [current];
        last := current;
        written := written + 1;
        assert out == before + EncodeByte(was, current);
      }
      assert p[..|p|] == p;
      n := if written > |p| then |p| else written;
    }
  }

  /** Encoding does not depend on how the input is split over calls of `Write`. */
  lemma {:induction false} EncodeSplit(last: byte, a: seq<byte>, b: seq<byte>)
    ensures Encode(last, a + b) == Encode(last, a) + Encode(Last(last, a), b)
    ensures Last(last, a + b) == Last(Last(last, a), b)
  {
    if b == [] {
      assert a + b == a;
    } else {
      var b' := b[..|b| - 1];
      assert (a + b)[..|a + b| - 1] == a + b';
      EncodeSplit(last, a, b');
    }
  }

  lemma {:induction false} CleanAppend(last: byte, a: seq<byte>, b: seq<byte>)
    requires Clean(last, a) && Clean(Last(last, a), b)
    ensures Clean(last, a + b)
  {
    forall i | 0 <= i < |a + b| ensures EncodeByte(Last(last, (a + b)[..i]), (a + b)[i]) == [(a + b)[i]] {
      if i < |a| {
        assert (a + b)[..i] == a[..i];
      } else {
        assert (a + b)[..i] == a + b[..i - |a|];
      }
    }
  }

  lemma {:induction false} EncodeIsClean(last: byte, s: seq<byte>)
    ensures Clean(last, Encode(last, s)) && Last(last, Encode(last, s)) == Last(last, s)
  {
    if s != [] {
      var init, b := s[..|s| - 1], s[|s| - 1];
      EncodeIsClean(last, init);
      var l := Last(last, init);
      var e := EncodeByte(l, b);
      assert Clean(l, e) by {
        assert e[..0] == [];
        if |e| == 2 {
          assert e[..1] == [e[0]];
        }
      }
      CleanAppend(last, Encode(last, init), e);
    }
  }

  lemma {:induction false} CleanInit(last: byte, s: seq<byte>)
    requires Clean(last, s) && s != []
    ensures Clean(last, s[..|s| - 1])
    ensures EncodeByte(Last(last, s[..|s| - 1]), s[|s| - 1]) == [s[|s| - 1]]
  {
    var init := s[..|s| - 1];
    forall i | 0 <= i < |init| ensures EncodeByte(Last(last, init[..i]), init[i]) == [init[i]] {
      assert init[..i] == s[..i];
    }
  }

  lemma {:induction false} EncodeClean(last: byte, s: seq<byte>)
    requires Clean(last, s)
    ensures Encode(last, s) == s
  {
    hide Clean, EncodeByte;
    if s != [] {
      CleanInit(last, s);
      EncodeClean(last, s[..|s| - 1]);
      assert s == s[..|s| - 1] + [s[|s| - 1]];
    }
  }

  /** Cleanness by position. */
  lemma CleanMeans(e: seq<byte>, i: nat)
    requires Clean(NUL, e) && i < |e|
    ensures e[i] == LF ==> i > 0 && e[i - 1] == CR
    ensures i > 0 && e[i - 1] == CR ==> e[i] == LF || e[i] == NUL
  {
    assert EncodeByte(Last(NUL, e[..i]), e[i]) == [e[i]];
    assert i > 0 ==> Last(NUL, e[..i]) == e[i - 1];
  }

  /** Encoded text is a fixed point of the encoder, with every LF after a CR and every CR that is
      not last before LF or NUL. */
  lemma {:induction false} EncodeIdempotent(s: seq<byte>)
    ensures Encode(NUL, Encode(NUL, s)) == Encode(NUL, s)
    ensures var e := Encode(NUL, s); forall i :: 0 <= i < |e| ==>
      && (e[i] == LF ==> i > 0 && e[i - 1] == CR)
      && (i > 0 && e[i - 1] == CR ==> e[i] == LF || e[i] == NUL)
  {
    EncodeIsClean(NUL, s);
    var e := Encode(NUL, s);
    EncodeClean(NUL, e);
    hide Encode, Clean;
    forall i | 0 <= i < |e|
      ensures e[i] == LF ==> i > 0 && e[i - 1] == CR
      ensures i > 0 && e[i - 1] == CR ==> e[i] == LF || e[i] == NUL
    {
      CleanMeans(e, i);
    }
  }

  // Decoding.

  /** How many input bytes the next output byte takes (0 when there is none). */
  function Take(windows: bool, s: seq<byte>): (k: nat)
    ensures k <= |s| && k <= 2
  {
    if s == [] then 0
    else if s[0] != CR then 1
    else if |s| == 1 then 0
    else if (!windows && s[1] == LF) || s[1] == NUL then 2
    else 1
  }

  /** The output byte for a CR that is followed by `b`. */
  function AfterCr(windows: bool, b: byte): byte {
    if !windows && b == LF then LF else CR
  }

  /** The decoding of a complete source; a CR at its very end is dropped. */
  function Decode(windows: bool, s: seq<byte>): seq<byte>
    decreases |s|
  {
    var k := Take(windows, s);
    if k == 0 then []
    else if s[0] == CR then [AfterCr(windows, s[1])] + Decode(windows, s[k..])
    else [s[0]] + Decode(windows, s[k..])
  }

  /** One output byte. */
  lemma {:induction false} DecodeStep(windows: bool, s: seq<byte>, current: byte)
    requires Take(windows, s) > 0
    requires current == if s[0] == CR then AfterCr(windows, s[1]) else s[0]
    ensures Decode(windows, s) == [current] + Decode(windows, s[Take(windows, s)..])
  {}

  lemma DecodeEnd(windows: bool, s: seq<byte>)
    requires Take(windows, s) == 0
    ensures Decode(windows, s) == [] == Decode(windows, [])
  {}

  class Reader {
    const windows: bool
    const src: seq<byte>
    var pos: nat

    ghost predicate Valid()
      reads this
    {
      pos <= |src|
    }

    constructor (windows: bool, src: seq<byte>)
      ensures Valid() && this.windows == windows && this.src == src && pos == 0
    {
      this.windows, this.src, pos := windows, src, 0;
    }

    /** `Read`: fills `p` with the next decoded bytes; stops short only at the end of the source. */
    method Read(p: array<byte>) returns (n: nat, eof: bool)
      requires Valid()
      modifies this, p
      ensures Valid() && n <= p.Length && (n == p.Length || eof) && (eof ==> pos == |src|)
      ensures Decode(windows, src[old(pos)..]) == p[..n] + Decode(windows, src[pos..])
    {
      hide Decode;
      n, eof := 0, false;
      assert p[..0] + Decode(windows, src[pos..]) == Decode(windows, src[pos..]);
      while n < p.Length
        invariant Valid() && n <= p.Length
        invariant Decode(windows, src[old(pos)..]) == p[..n] + Decode(windows, src[pos..])
      {
        ghost var rest, done := src[pos..], p[..n];
        if pos == |src| {
          return n, true;
        }
        var current := src[pos];
        pos := pos + 1;
        if current == CR {
          if pos == |src| {
            assert src[pos..] == [];
            DecodeEnd(windows, rest);
            return n, true;
          }
          var b := src[pos];
          pos := pos + 1;
          if !windows && b == LF {
            current := LF;
          } else if b == NUL {
          } else {
            pos := pos - 1;
          }
        }
        assert src[pos..] == rest[Take(windows, rest)..];
        DecodeStep(windows, rest, current);
        Assoc(done, [current], Decode(windows, src[pos..]));
        hide Take;
        p[n] := current;
        n := n + 1;
        assert p[..n] == done + [current];
      }
    }

    /** Reading with any sequence of buffer sizes gives the one decoding of the source, and all of
        it once the end has been reported. */
    method ReadAll(sizes: seq<nat>) returns (out: seq<byte>, eof: bool)
      requires Valid() && pos == 0
      modifies this
      ensures Valid() && out <= Decode(windows, src)
      ensures eof ==> out == Decode(windows, src)
    {
      out, eof := [], false;
      assert src[0..] == src;
      assert Decode(windows, []) == [];
      hide Decode;
      for i := 0 to |sizes|
        invariant Valid() && Decode(windows, src) == out + Decode(windows, src[pos..])
        invariant eof ==> pos == |src|
      {
        var p := new byte[sizes[i]](_ => 0);
        ghost var before := out;
        var n, e := Read(p);
        Assoc(before, p[..n], Decode(windows, src[pos..]));
        out := out + p[..n];
        eof := e;
      }
    }
  }

  // Round trip.

  /** Encoding in the order the bytes come. */
  lemma {:induction false} EncodeFirst(last: byte, s: seq<byte>)
    requires s != []
    ensures Encode(last, s) == EncodeByte(last, s[0]) + Encode(s[0], s[1..])
  {
    assert s == [s[0]] + s[1..];
    assert [s[0]][..0] == [];
    assert Encode(last, [s[0]]) == Encode(last, []) + EncodeByte(Last(last, []), s[0]);
    EncodeSplit(last, [s[0]], s[1..]);
  }

  lemma {:induction false} DecodeOne(b: byte, rest: seq<byte>)
    requires b != CR
    ensures Decode(false, [b] + rest) == [b] + Decode(false, rest)
  {
    assert ([b] + rest)[1..] == rest;
  }

  lemma {:induction false} DecodeTwo(b: byte, rest: seq<byte>)
    requires b == LF || b == NUL
    ensures Decode(false, [CR, b] + rest) == [AfterCr(false, b)] + Decode(false, rest)
  {
    assert ([CR, b] + rest)[2..] == rest;
  }

  /** What a decoder makes of encoded text is what it makes of the text itself. */
  lemma {:induction false} DecodeEncode(last: byte, s: seq<byte>)
    requires last != CR
    ensures Decode(false, Encode(last, s)) == Decode(false, s)
    decreases |s|
  {
    if s == [] {
    } else if s[0] != CR {
      var rest := s[1..];
      EncodeFirst(last, s);
      DecodeEncode(s[0], rest);
      assert s == [s[0]] + rest;
      if s[0] == LF {
        DecodeTwo(LF, Encode(LF, rest));
      } else {
        DecodeOne(s[0], Encode(s[0], rest));
      }
    } else if |s| == 1 {
      EncodeFirst(last, s);
      assert Encode(last, s) == s;
    } else {
      DecodeEncodeCr(last, s);
    }
  }

  lemma {:induction false} EncodeCr(last: byte, s: seq<byte>)
    requires last != CR && |s| >= 2 && s[0] == CR
    ensures Encode(last, s) == if s[1] == LF || s[1] == NUL then [CR, s[1]] + Encode(s[1], s[2..])
                               else [CR, NUL] + Encode(NUL, s[1..])
  {
    hide Encode;
    EncodeFirst(last, s);
    assert s[1..][1..] == s[2..];
    EncodeFirst(CR, s[1..]);
    EncodeFirst(NUL, s[1..]);
  }

  lemma {:induction false} DecodeCr(s: seq<byte>)
    requires |s| >= 2 && s[0] == CR
    ensures Decode(false, s) == if s[1] == LF || s[1] == NUL then [AfterCr(false, s[1])] + Decode(false, s[2..])
                                else [CR] + Decode(false, s[1..])
  {}

  lemma {:induction false} DecodeEncodeCr(last: byte, s: seq<byte>)
    requires last != CR && |s| >= 2 && s[0] == CR
    ensures Decode(false, Encode(last, s)) == Decode(false, s)
    decreases |s|, 0
  {
    hide Encode, Decode;
    EncodeCr(last, s);
    DecodeCr(s);
    if s[1] == LF || s[1] == NUL {
      DecodeTwo(s[1], Encode(s[1], s[2..]));
      DecodeEncode(s[1], s[2..]);
    } else {
      DecodeTwo(NUL, Encode(NUL, s[1..]));
      DecodeEncode(NUL, s[1..]);
    }
  }

  /** No CR NUL, no CR at the end, and no CR LF where that is not how lines end. */
  ghost predicate Plain(windows: bool, s: seq<byte>) {
    forall i :: 0 <= i < |s| && s[i] == CR ==> i + 1 < |s| && (windows || s[i + 1] != LF) && s[i + 1] != NUL
  }

  /** The decoder leaves exactly plain text alone, and shortens every other. */
  lemma {:induction false} DecodePlain(windows: bool, s: seq<byte>)
    ensures |Decode(windows, s)| <= |s|
    ensures Plain(windows, s) <==> Decode(windows, s) == s
    ensures !Plain(windows, s) ==> |Decode(windows, s)| < |s|
    decreases |s|
  {
    var k := Take(windows, s);
    if k == 1 {
      DecodePlain(windows, s[1..]);
      PlainTail(windows, s);
    } else if k == 2 {
      DecodePlain(windows, s[2..]);
      assert !Plain(windows, s) by { assert s[0] == CR; }
    } else if s != [] {
      assert !Plain(windows, s) by { assert s[0] == CR; }
    }
  }

  lemma PlainTail(windows: bool, s: seq<byte>)
    requires Take(windows, s) == 1
    ensures Plain(windows, s) <==> Plain(windows, s[1..])
    ensures s == [s[0]] + s[1..]
  {
    var t := s[1..];
    assert forall i :: 0 <= i < |t| ==> t[i] == s[i + 1];
    if Plain(windows, t) {
      forall i | 0 <= i < |s| && s[i] == CR
        ensures i + 1 < |s| && (windows || s[i + 1] != LF) && s[i + 1] != NUL
      {
        if i > 0 {
          assert t[i - 1] == CR;
        }
      }
    }
  }

  /** Text survives the round trip exactly when it has no CR LF or CR NUL pair and does not end in
      CR; in every case the round trip changes nothing that decoding alone would not change. */
  lemma {:induction false} RoundTrip(s: seq<byte>)
    ensures Decode(false, Encode(NUL, s)) == Decode(false, s)
    ensures Decode(false, Encode(NUL, s)) == s <==> Plain(false, s)
  {
    DecodeEncode(NUL, s);
    DecodePlain(false, s);
  }

  // Where lines end in CR LF.

  /** No LF without a CR before it, and no CR at the end or before NUL. */
  predicate CrLfAt(s: seq<byte>, i: nat)
    requires i < |s|
  {
    && (s[i] == LF ==> i > 0 && s[i - 1] == CR)
    && (s[i] == CR ==> i + 1 < |s| && s[i + 1] != NUL)
  }

  /** The text of a platform with CR LF. */
  ghost predicate CrLfText(s: seq<byte>) {
    forall i :: 0 <= i < |s| ==> CrLfAt(s, i)
  }

  /** What is behind a good beginning decides. */
  lemma CrLfBehind(s: seq<byte>, k: nat)
    requires 1 <= k <= |s| && forall i :: 0 <= i < k ==> CrLfAt(s, i)
    requires k < |s| && s[k] == LF ==> s[k - 1] != CR
    ensures CrLfText(s) <==> CrLfText(s[k..])
  {
    forall i | k <= i < |s| ensures CrLfAt(s, i) <==> CrLfAt(s[k..], i - k) {}
    if CrLfText(s) {
      forall j | 0 <= j < |s[k..]| ensures CrLfAt(s[k..], j) {
        assert CrLfAt(s, j + k);
      }
    }
    if CrLfText(s[k..]) {
      forall i | 0 <= i < |s| ensures CrLfAt(s, i) {
        assert i >= k ==> CrLfAt(s[k..], i - k);
      }
    }
  }

  /** Decoding there: CR NUL is a bare CR, and everything else stands for itself. */
  lemma {:induction false} WindowsDecode(b: byte, rest: seq<byte>)
    ensures b != CR ==> Decode(true, [b] + rest) == [b] + Decode(true, rest)
    ensures Decode(true, [CR, NUL] + rest) == [CR] + Decode(true, rest)
    ensures Decode(true, [CR, LF] + rest) == [CR, LF] + Decode(true, rest)
    ensures Decode(true, [CR]) == []
  {
    assert ([b] + rest)[1..] == rest && ([LF] + rest)[1..] == rest;
    assert ([CR, NUL] + rest)[2..] == rest && ([CR, LF] + rest)[1..] == [LF] + rest;
    assert Decode(true, [LF] + rest) == [LF] + Decode(true, rest);
    assert [CR] + ([LF] + Decode(true, rest)) == [CR, LF] + Decode(true, rest);
  }

  /** One step of encoding and decoding. */
  lemma {:induction false} WindowsStep(last: byte, s: seq<byte>)
    requires last != CR && s != []
    ensures var d := Decode(true, Encode(last, s));
      && (s[0] == LF ==> d == [CR, LF] + Decode(true, Encode(LF, s[1..])))
      && (s[0] != LF && s[0] != CR ==> d == [s[0]] + Decode(true, Encode(s[0], s[1..])))
      && (s == [CR] ==> d == [])
      && (|s| >= 2 && s[0] == CR && s[1] == LF ==> d == [CR, LF] + Decode(true, Encode(LF, s[2..])))
      && (|s| >= 2 && s[0] == CR && s[1] == NUL ==> d == [CR] + Decode(true, Encode(NUL, s[2..])))
      && (|s| >= 2 && s[0] == CR && s[1] != LF && s[1] != NUL ==> d == [CR] + Decode(true, Encode(NUL, s[1..])))
  {
    hide Decode;
    EncodeFirst(last, s);
    WindowsDecode(s[0], Encode(s[0], s[1..]));
    if s[0] == CR {
      if |s| == 1 {
        assert s[1..] == [] && Encode(CR, []) == [];
        assert Encode(last, s) == [CR];
      } else {
        EncodeCr(last, s);
        WindowsDecode(NUL, if s[1] == LF || s[1] == NUL then Encode(s[1], s[2..]) else Encode(NUL, s[1..]));
      }
    }
  }

  /** No text comes out with a NUL too many in front. */
  lemma {:induction false} NoExtraNul(last: byte, s: seq<byte>)
    requires last != CR
    ensures Decode(true, Encode(last, s)) != [NUL] + s
    decreases |s|
  {
    if s != [] {
      WindowsStep(last, s);
      hide Decode, Encode;
      var d := Decode(true, Encode(last, s));
      assert ([NUL] + s)[0] == NUL;
      if s[0] == NUL {
        NoExtraNul(NUL, s[1..]);
        assert s == [NUL] + s[1..];
        SameHead([NUL], Decode(true, Encode(NUL, s[1..])), s);
      } else {
        assert d == [] || d[0] == CR || d[0] == s[0];
      }
    }
  }

  lemma SameHead(a: seq<byte>, x: seq<byte>, y: seq<byte>)
    ensures a + x == a + y <==> x == y
  {
    assert (a + x)[|a|..] == x && (a + y)[|a|..] == y;
  }

  lemma {:induction false} WindowsText(last: byte, s: seq<byte>)
    requires last != CR
    ensures Decode(true, Encode(last, s)) == s <==> CrLfText(s)
    decreases |s|
  {
    if s == [] {
    } else {
      WindowsStep(last, s);
      hide Decode, Encode;
      if s[0] != CR && s[0] != LF {
        CrLfBehind(s, 1);
        WindowsText(s[0], s[1..]);
        assert s == [s[0]] + s[1..];
        SameHead([s[0]], Decode(true, Encode(s[0], s[1..])), s[1..]);
      } else if s[0] == CR && |s| >= 2 {
        WindowsCr(last, s);
      } else {
        assert !CrLfAt(s, 0);
      }
    }
  }

  /** What a CR and its next byte mean for the rest. */
  lemma CrLfAfterCr(s: seq<byte>)
    requires |s| >= 2 && s[0] == CR
    ensures s[1] == LF ==> (CrLfText(s) <==> CrLfText(s[2..]))
    ensures s[1] == NUL ==> !CrLfText(s)
    ensures s[1] != LF && s[1] != NUL ==> (CrLfText(s) <==> CrLfText(s[1..]))
  {
    if s[1] == LF {
      CrLfBehind(s, 2);
    } else if s[1] == NUL {
      assert !CrLfAt(s, 0);
    } else {
      CrLfBehind(s, 1);
    }
  }

  lemma {:induction false} WindowsCr(last: byte, s: seq<byte>)
    requires last != CR && |s| >= 2 && s[0] == CR
    ensures Decode(true, Encode(last, s)) == s <==> CrLfText(s)
    decreases |s|, 0
  {
    hide Decode, Encode, CrLfText;
    WindowsStep(last, s);
    CrLfAfterCr(s);
    if s[1] == LF {
      WindowsText(LF, s[2..]);
      assert s == [CR, LF] + s[2..];
      SameHead([CR, LF], Decode(true, Encode(LF, s[2..])), s[2..]);
    } else if s[1] == NUL {
      NoExtraNul(NUL, s[2..]);
      assert s == [CR] + ([NUL] + s[2..]);
      SameHead([CR], Decode(true, Encode(NUL, s[2..])), [NUL] + s[2..]);
    } else {
      WindowsText(NUL, s[1..]);
      assert s == [CR] + s[1..];
      SameHead([CR], Decode(true, Encode(NUL, s[1..])), s[1..]);
    }
  }

  /** Where lines end in CR LF, encoding and decoding give back exactly the texts in which every LF
      follows a CR and no CR is last or before NUL. */
  lemma {:induction false} WindowsRoundTrip(s: seq<byte>)
    ensures Decode(true, Encode(NUL, s)) == s <==> CrLfText(s)
  {
    WindowsText(NUL, s);
  }

  /** The control characters of the encoding. */
  lemma ControlBytes()
    ensures [CR, LF, NUL] == Ascii("\r\n\0")
  {}
}
