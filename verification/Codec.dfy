/** Datagrams as byte strings: the NUL-separated fields of section 5 of RFC 1350 and of the option
    lists of RFC 2347, and what the accessors and `validate` compute from a receive buffer.

    A buffer may be longer than the datagram in it: `offset` is the length of the datagram, and
    the bytes from there on are left over from earlier use. */
module Codec {
  import opened Bytes

  // Splitting and joining on NUL.

  ghost predicate NulFree(s: seq<byte>) {
    forall i :: 0 <= i < |s| ==> s[i] != 0
  }

  ghost predicate AllNulFree(fields: seq<seq<byte>>) {
    forall i :: 0 <= i < |fields| ==> NulFree(fields[i])
  }

  /** `bytes.IndexByte(s, 0)`. */
  function IndexNul(s: seq<byte>): (i: int)
    ensures -1 <= i < |s|
    ensures i >= 0 ==> s[i] == 0 && NulFree(s[..i])
    ensures i < 0 ==> NulFree(s)
  {
    if s == [] then -1
    else if s[0] == 0 then 0
    else
      var r := IndexNul(s[1..]);
      assert s == [s[0]] + s[1..];
      if r < 0 then -1 else r + 1
  }

  /** `bytes.Count(s, []byte{0})`. */
  function CountNul(s: seq<byte>): nat {
    if s == [] then 0 else CountNul(s[..|s| - 1]) + if s[|s| - 1] == 0 then 1 else 0
  }

  /** `bytes.Split(s, []byte{0})`. */
  function Split(s: seq<byte>): seq<seq<byte>>
    decreases |s|
  {
    var i := IndexNul(s);
    if i < 0 then [s] else [s[..i]] + Split(s[i + 1..])
  }

  /** The fields one after the other, each followed by a NUL. */
  function Render(fields: seq<seq<byte>>): seq<byte> {
    if fields == [] then [] else fields[0] + [0] + Render(fields[1..])
  }

  lemma {:induction false} CountAppend(a: seq<byte>, b: seq<byte>)
    ensures CountNul(a + b) == CountNul(a) + CountNul(b)
  {
    if b == [] {
      assert a + b == a;
    } else {
      assert (a + b)[..|a + b| - 1] == a + b[..|b| - 1];
      CountAppend(a, b[..|b| - 1]);
    }
  }

  lemma {:induction false} CountNone(s: seq<byte>)
    requires NulFree(s)
    ensures CountNul(s) == 0
  {
    if s != [] {
      CountNone(s[..|s| - 1]);
    }
  }

  /** The first NUL is found wherever the field before it ends. */
  lemma {:induction false} IndexAfter(f: seq<byte>, rest: seq<byte>)
    requires NulFree(f)
    ensures IndexNul(f + [0] + rest) == |f|
  {
    if f != [] {
      IndexAfter(f[1..], rest);
      assert (f + [0] + rest)[1..] == f[1..] + [0] + rest;
    }
  }

  /** One field and the rest, split. */
  lemma {:induction false} SplitFirst(f: seq<byte>, rest: seq<byte>)
    requires NulFree(f)
    ensures Split(f + [0] + rest) == [f] + Split(rest)
  {
    var s := f + [0] + rest;
    IndexAfter(f, rest);
    assert s[..|f|] == f && s[|f| + 1..] == rest;
  }

  lemma {:induction false} SplitLast(f: seq<byte>)
    requires NulFree(f)
    ensures Split(f) == [f]
  {
    assert IndexNul(f) < 0;
  }

  /** `bytes.Join(fields, []byte{0})`. */
  function Join(fields: seq<seq<byte>>): seq<byte>
    requires fields != []
  {
    if |fields| == 1 then fields[0] else fields[0] + [0] + Join(fields[1..])
  }

  lemma {:induction false} RenderJoin(fields: seq<seq<byte>>)
    requires fields != []
    ensures Render(fields) == Join(fields) + [0]
  {
    var rest := fields[1..];
    if rest == [] {
      assert Render(fields) == fields[0] + [0] + Render([]);
    } else {
      RenderJoin(rest);
      Assoc(fields[0] + [0], Join(rest), [0]);
    }
  }

  lemma TailNulFree(fields: seq<seq<byte>>)
    requires fields != [] && AllNulFree(fields)
    ensures NulFree(fields[0]) && AllNulFree(fields[1..]) && fields == [fields[0]] + fields[1..]
  {
    hide NulFree;
  }

  lemma {:induction false} SplitJoin(fields: seq<seq<byte>>)
    requires fields != [] && AllNulFree(fields)
    ensures Split(Join(fields)) == fields
  {
    TailNulFree(fields);
    hide Split, NulFree, AllNulFree;
    if |fields| == 1 {
      SplitLast(fields[0]);
    } else {
      SplitJoin(fields[1..]);
      SplitFirst(fields[0], Join(fields[1..]));
    }
  }

  /** Splitting is exact on a rendered list without its last NUL. */
  lemma {:induction false} SplitRender(fields: seq<seq<byte>>)
    requires fields != [] && AllNulFree(fields)
    ensures |Render(fields)| >= 1 && Render(fields)[|Render(fields)| - 1] == 0
    ensures Split(Render(fields)[..|Render(fields)| - 1]) == fields
  {
    RenderJoin(fields);
    SplitJoin(fields);
    var j := Join(fields);
    hide Split, Render, Join, NulFree, AllNulFree;
    assert (j + [0])[..|j|] == j;
  }

  /** A string with a NUL in it is its first field, the NUL and the rest. */
  lemma FirstNul(s: seq<byte>)
    requires IndexNul(s) >= 0
    ensures var i := IndexNul(s); s == s[..i] + [0] + s[i + 1..] && NulFree(s[..i])
  {}

  /** Every string splits into NUL-free fields that render back to it. */
  lemma {:induction false} RenderSplit(s: seq<byte>)
    ensures AllNulFree(Split(s)) && Split(s) != []
    ensures Render(Split(s)) == s + [0]
    ensures |Split(s)| == CountNul(s) + 1
    decreases |s|
  {
    var i := IndexNul(s);
    hide Split, Render, CountNul, IndexNul, NulFree;
    if i < 0 {
      CountNone(s);
      SplitLast(s);
      RenderFirst(s, []);
      assert [s] + [] == [s];
      assert s + [0] + Render([]) == s + [0] by { EmptyRender(); }
    } else {
      FirstNul(s);
      var f, rest := s[..i], s[i + 1..];
      RenderSplit(rest);
      SplitFirst(f, rest);
      RenderFirst(f, Split(rest));
      CountFirst(f, rest);
      Assoc(f + [0], rest, [0]);
    }
  }

  lemma EmptyRender()
    ensures Render([]) == []
  {}

  lemma {:induction false} RenderFirst(f: seq<byte>, rest: seq<seq<byte>>)
    ensures Render([f] + rest) == f + [0] + Render(rest)
  {
    assert ([f] + rest)[1..] == rest;
  }

  lemma {:induction false} CountFirst(f: seq<byte>, rest: seq<byte>)
    requires NulFree(f)
    ensures CountNul(f + [0] + rest) == 1 + CountNul(rest)
  {
    CountNone(f);
    CountAppend(f + [0], rest);
    CountAppend(f, [0]);
    assert CountNul([0]) == 1 by { assert [0][..0] == []; }
  }

  lemma Regroup(f: seq<byte>, rest: seq<byte>, b: seq<byte>)
    ensures f + [0] + rest + [0] + b == f + [0] + (rest + [0] + b)
  {}

  /** A NUL ends a field whatever follows it. */
  lemma {:induction false} SplitAppend(a: seq<byte>, b: seq<byte>)
    ensures Split(a + [0] + b) == Split(a) + Split(b)
    decreases |a|
  {
    var i := IndexNul(a);
    if i < 0 {
      SplitFirst(a, b);
      SplitLast(a);
    } else {
      var f, rest := a[..i], a[i + 1..];
      assert a == f + [0] + rest;
      hide Split, IndexNul;
      SplitAppend(rest, b);
      SplitFirst(f, rest);
      SplitFirst(f, rest + [0] + b);
      Regroup(f, rest, b);
      Assoc([f], Split(rest), Split(b));
    }
  }

  // Header fields.

  const RRQ := 1
  const WRQ := 2
  const DATA := 3
  const ACK := 4
  const ERROR := 5
  const OACK := 6

  /** `binary.BigEndian`. */
  function Uint16Bytes(x: nat): (s: seq<byte>)
    requires x < 0x1_0000
    ensures |s| == 2
  {
    [x / 0x100, x % 0x100]
  }

  function Uint16(hi: byte, lo: byte): (x: nat)
    ensures x < 0x1_0000
    ensures Uint16Bytes(x) == [hi, lo]
  {
    hi * 0x100 + lo
  }

  function Opcode(buf: seq<byte>): nat
    requires |buf| >= 2
  {
    Uint16(buf[0], buf[1])
  }

  /** "netascii" and "octet"; every other mode is refused, "mail" included. */
  const NETASCII: seq<byte> := [110, 101, 116, 97, 115, 99, 105, 105]
  const OCTET: seq<byte> := [111, 99, 116, 101, 116]

  // Accessors. A slice or index out of range panics in the program.

  datatype Access<T> = Ok(value: T) | Panic

  function Filename(buf: seq<byte>): Access<seq<byte>>
    requires |buf| >= 2
  {
    var i := IndexNul(buf[2..]);
    if i < 0 then Panic else Ok(buf[2..][..i])
  }

  function Mode(buf: seq<byte>): Access<seq<byte>>
    requires |buf| >= 2
  {
    var fields := Split(buf[2..]);
    if |fields| < 2 then Panic else Ok(fields[1])
  }

  /** Keys and values in turn; a repeated key takes the last value. */
  function Pairs(fields: seq<seq<byte>>): map<seq<byte>, seq<byte>>
  {
    if |fields| < 2 then map[]
    else Pairs(fields[..|fields| - 2])[fields[|fields| - 2] := fields[|fields| - 1]]
  }

  /** After the first `skip` of `n` fields, some key has no value. */
  predicate Unpaired(n: nat, skip: nat) {
    n < skip || (n - skip) % 2 != 0
  }

  function Options(buf: seq<byte>, offset: nat): Access<map<seq<byte>, seq<byte>>>
    requires 2 <= |buf| && offset <= |buf|
  {
    if offset < 3 then Panic
    else
      var fields := Split(buf[2..offset - 1]);
      var skip := if Opcode(buf) == RRQ || Opcode(buf) == WRQ then 2 else 0;
      if Unpaired(|fields|, skip) then Panic
      else Ok(Pairs(fields[skip..]))
  }

  // Validation.

  datatype Verdict = Valid | Invalid | Crash

  function ValidateRequest(buf: seq<byte>, offset: nat): Verdict
    requires 2 <= offset <= |buf|
  {
    match Filename(buf)
    case Panic => Crash
    case Ok(name) =>
      if |name| < 1 then Invalid
      else if buf[offset - 1] != 0 then Invalid
      else if CountNul(buf[2..offset]) % 2 != 0 then Invalid
      else
        match Mode(buf)
        case Panic => Crash
        case Ok(mode) => if mode == NETASCII || mode == OCTET then Valid else Invalid
  }

  function Validate(buf: seq<byte>, offset: nat): Verdict
    requires offset <= |buf|
  {
    if offset < 2 then Invalid
    else if Opcode(buf) > 6 then Invalid
    else if Opcode(buf) == RRQ || Opcode(buf) == WRQ then ValidateRequest(buf, offset)
    else if Opcode(buf) == ACK || Opcode(buf) == DATA then
      if offset < 4 then Invalid else Valid
    else if Opcode(buf) == ERROR then
      if offset < 5 || buf[offset - 1] != 0 || CountNul(buf[4..offset]) > 1 then Invalid else Valid
    else if Opcode(buf) == OACK then
      if buf[offset - 1] != 0 || CountNul(buf[2..offset]) % 2 != 0 then Invalid else Valid
    else Valid
  }

  // What validation means.

  /** A list of NUL-terminated strings in pairs. */
  ghost predicate PairedFields(d: seq<byte>, fields: seq<seq<byte>>) {
    |fields| >= 2 && |fields| % 2 == 0 && AllNulFree(fields) && d == Render(fields)
  }

  /** File name, transfer mode and options. */
  ghost predicate RequestFields(d: seq<byte>, fields: seq<seq<byte>>) {
    && PairedFields(d, fields)
    && fields[0] != [] && (fields[1] == NETASCII || fields[1] == OCTET)
  }

  /** The datagram formats, by what is on the wire only. */
  ghost predicate WellFormed(d: seq<byte>) {
    && |d| >= 2
    && var op := Opcode(d);
       if op == RRQ || op == WRQ then exists fields :: RequestFields(d[2..], fields)
       else if op == ACK || op == DATA then |d| >= 4
       else if op == ERROR then |d| >= 5 && d[|d| - 1] == 0 && NulFree(d[4..|d| - 1])
       else if op == OACK then exists fields :: PairedFields(d[2..], fields)
       else op == 0
  }

  /** A string ending in NUL, with an even number of them, is a list of paired fields; its
      fields are found by splitting off the last NUL. */
  lemma {:induction false} PairedIff(d: seq<byte>)
    requires d != []
    ensures (d[|d| - 1] == 0 && CountNul(d) % 2 == 0) <==> PairedFields(d, Split(d[..|d| - 1]))
  {
    var init := d[..|d| - 1];
    var fields := Split(init);
    RenderSplit(init);
    if d[|d| - 1] == 0 {
      assert d == init + [0];
      assert CountNul(d) == |fields|;
      hide Split, Render, CountNul, NulFree, AllNulFree;
    } else {
      assert Render(fields)[|init|] == 0;
    }
  }

  lemma {:induction false} PairedUnique(d: seq<byte>, fields: seq<seq<byte>>)
    requires PairedFields(d, fields)
    ensures d != [] && fields == Split(d[..|d| - 1])
  {
    SplitRender(fields);
  }

  /** In a list of at least two fields, whatever follows it in the buffer, the accessors find the
      first two. */
  lemma {:induction false} FirstFields(buf: seq<byte>, offset: nat)
    requires 3 <= offset <= |buf| && buf[offset - 1] == 0
    ensures var fields := Split(buf[2..offset - 1]);
      && Filename(buf) == Ok(fields[0])
      && (|fields| >= 2 ==> Mode(buf) == Ok(fields[1]))
  {
    var a, b := buf[2..offset - 1], buf[offset..];
    assert buf[2..] == a + [0] + b;
    SplitAppend(a, b);
    RenderSplit(a);
    var i := IndexNul(buf[2..]);
    assert Split(buf[2..])[0] == buf[2..][..i];
  }

  /** Validation sees what the parser will see: on a valid request the fields are an even list of
      NUL-free strings that renders to exactly the datagram, the accessors return its first two
      and `options` the rest, whatever is left in the buffer beyond the datagram. */
  lemma {:induction false} RequestParses(buf: seq<byte>, offset: nat)
    requires 2 <= offset <= |buf| && (Opcode(buf) == RRQ || Opcode(buf) == WRQ)
    requires Validate(buf, offset) == Valid
    ensures offset >= 3
    ensures var fields := Split(buf[2..offset - 1]);
      && RequestFields(buf[2..offset], fields)
      && Filename(buf) == Ok(fields[0]) && Mode(buf) == Ok(fields[1])
      && Options(buf, offset) == Ok(Pairs(fields[2..]))
  {
    hide NETASCII, OCTET;
    RequestNuls(buf, offset);
    hide Split, Render, CountNul, Pairs, Filename, Mode, IndexNul, NulFree, Validate;
    var d := buf[2..offset];
    assert d[..|d| - 1] == buf[2..offset - 1];
    PairedIff(d);
    FirstFields(buf, offset);
    RequestOptions(buf, offset);
    hide Options;
  }

  lemma {:induction false} RequestOptions(buf: seq<byte>, offset: nat)
    requires 3 <= offset <= |buf| && (Opcode(buf) == RRQ || Opcode(buf) == WRQ)
    ensures var fields := Split(buf[2..offset - 1]);
      |fields| >= 2 && |fields| % 2 == 0 ==> Options(buf, offset) == Ok(Pairs(fields[2..]))
  {
    hide Split, Pairs;
  }

  lemma {:induction false} RequestNuls(buf: seq<byte>, offset: nat)
    requires 2 <= offset <= |buf| && (Opcode(buf) == RRQ || Opcode(buf) == WRQ)
    requires Validate(buf, offset) == Valid
    ensures offset >= 3 && buf[2..offset][|buf[2..offset]| - 1] == 0 && CountNul(buf[2..offset]) % 2 == 0
    ensures Filename(buf).Ok? && Filename(buf).value != []
    ensures Mode(buf) == Ok(NETASCII) || Mode(buf) == Ok(OCTET)
  {}

  lemma {:induction false} OackParses(buf: seq<byte>, offset: nat)
    requires 2 <= offset <= |buf| && Opcode(buf) == OACK && Validate(buf, offset) == Valid
    ensures offset >= 3
    ensures var fields := Split(buf[2..offset - 1]);
      PairedFields(buf[2..offset], fields) && Options(buf, offset) == Ok(Pairs(fields))
  {
    assert offset >= 3;
    hide Split, Render, CountNul, Pairs;
    var d := buf[2..offset];
    assert d[..|d| - 1] == buf[2..offset - 1];
    PairedIff(d);
    assert Split(buf[2..offset - 1])[0..] == Split(buf[2..offset - 1]);
  }

  lemma {:induction false} RequestValidates(buf: seq<byte>, offset: nat, fields: seq<seq<byte>>)
    requires 2 <= offset <= |buf| && (Opcode(buf) == RRQ || Opcode(buf) == WRQ)
    requires RequestFields(buf[2..offset], fields)
    ensures Validate(buf, offset) == Valid
  {
    hide NETASCII, OCTET;
    var d := buf[2..offset];
    PairedUnique(d, fields);
    assert d[..|d| - 1] == buf[2..offset - 1];
    PairedIff(d);
    FirstFields(buf, offset);
    hide Split, Render, CountNul, IndexNul, Filename, Mode, NulFree;
  }

  lemma {:induction false} RequestIff(buf: seq<byte>, offset: nat)
    requires 2 <= offset <= |buf| && (Opcode(buf) == RRQ || Opcode(buf) == WRQ)
    ensures Validate(buf, offset) == Valid <==> exists fields :: RequestFields(buf[2..offset], fields)
  {
    hide RequestFields, Validate;
    if Validate(buf, offset) == Valid {
      RequestParses(buf, offset);
    }
    forall fields | RequestFields(buf[2..offset], fields) ensures Validate(buf, offset) == Valid {
      RequestValidates(buf, offset, fields);
    }
  }

  lemma {:induction false} OackIff(buf: seq<byte>, offset: nat)
    requires 3 <= offset <= |buf| && Opcode(buf) == OACK
    ensures Validate(buf, offset) == Valid <==> exists fields :: PairedFields(buf[2..offset], fields)
  {
    var d := buf[2..offset];
    PairedIff(d);
    hide Split, Render, CountNul, PairedFields;
    forall fields | PairedFields(d, fields) ensures PairedFields(d, Split(d[..|d| - 1])) {
      PairedUnique(d, fields);
    }
  }

  lemma {:induction false} CountZero(s: seq<byte>)
    ensures CountNul(s) == 0 <==> NulFree(s)
  {
    if s != [] {
      CountZero(s[..|s| - 1]);
      assert s == s[..|s| - 1] + [s[|s| - 1]];
    }
  }

  /** `validate` accepts exactly the well-formed datagrams, and its verdict does not depend on
      what is left in the buffer beyond the datagram. */
  lemma {:induction false} ValidIffWellFormed(buf: seq<byte>, offset: nat)
    requires offset <= |buf|
    ensures Validate(buf, offset) == Valid <==> WellFormed(buf[..offset])
  {
    if offset >= 2 {
      var d := buf[..offset];
      var op := Opcode(buf);
      assert Opcode(d) == op && d[2..] == buf[2..offset];
      if op == RRQ || op == WRQ {
        RequestIff(buf, offset);
      } else if op == OACK && offset >= 3 {
        OackIff(buf, offset);
      } else if op == ERROR && offset >= 5 && buf[offset - 1] == 0 {
        assert buf[4..offset] == d[4..offset - 1] + [0];
        CountAppend(d[4..offset - 1], [0]);
        assert CountNul([0]) == 1 by { assert [0][..0] == []; }
        CountZero(d[4..offset - 1]);
      }
    }
  }

  /** `validate` itself fails only on a request without any NUL in the buffer. */
  lemma {:induction false} ValidateCrashes(buf: seq<byte>, offset: nat)
    requires offset <= |buf|
    ensures Validate(buf, offset) == Crash <==>
      offset >= 2 && (Opcode(buf) == RRQ || Opcode(buf) == WRQ) && NulFree(buf[2..])
  {
    if offset >= 2 && (Opcode(buf) == RRQ || Opcode(buf) == WRQ) && IndexNul(buf[2..]) >= 0 {
      RenderSplit(buf[2..]);
      CountZero(buf[2..]);
    }
  }

  // Round trips.

  type Bytestring = seq<byte>

  /** `ps` lists the entries of `m` in some order, each once. */
  ghost predicate Lists(ps: seq<(Bytestring, Bytestring)>, m: map<Bytestring, Bytestring>) {
    if ps == [] then m == map[]
    else
      var (k, v) := ps[|ps| - 1];
      k in m && m[k] == v && Lists(ps[..|ps| - 1], m - {k})
  }

  /** `a` and `b` are the two parts of `m`: while a map is walked, what is left and what was seen. */
  ghost predicate Partition(
      a: map<Bytestring, Bytestring>, b: map<Bytestring, Bytestring>, m: map<Bytestring, Bytestring>) {
    a.Keys !! b.Keys && a + b == m
  }

  /** Moving an entry from one part to the other. */
  lemma MoveEntry(
      a: map<Bytestring, Bytestring>, b: map<Bytestring, Bytestring>, m: map<Bytestring, Bytestring>, k: Bytestring)
    requires k in a && Partition(a, b, m)
    ensures k in m && m[k] == a[k] && k !in b
    ensures Partition(a - {k}, b[k := a[k]], m) && |a - {k}| < |a|
  {
    assert (a - {k}).Keys == a.Keys - {k};
  }

  lemma AllMoved(b: map<Bytestring, Bytestring>, m: map<Bytestring, Bytestring>)
    requires Partition(map[], b, m)
    ensures b == m
  {
    assert map[] + b == b;
  }

  /** Keys and values in turn. */
  function Fields(ps: seq<(Bytestring, Bytestring)>): seq<Bytestring> {
    if ps == [] then [] else Fields(ps[..|ps| - 1]) + [ps[|ps| - 1].0, ps[|ps| - 1].1]
  }

  ghost predicate NulFreeMap(m: map<Bytestring, Bytestring>) {
    forall k :: k in m ==> NulFree(k) && NulFree(m[k])
  }

  function RequestBytes(op: nat, filename: Bytestring, mode: Bytestring, ps: seq<(Bytestring, Bytestring)>): Bytestring
    requires op < 0x1_0000
  {
    Uint16Bytes(op) + Render([filename, mode] + Fields(ps))
  }

  function OackBytes(ps: seq<(Bytestring, Bytestring)>): Bytestring {
    Uint16Bytes(OACK) + Render(Fields(ps))
  }

  lemma {:induction false} RenderAppend(a: seq<Bytestring>, b: seq<Bytestring>)
    ensures Render(a + b) == Render(a) + Render(b)
  {
    if a == [] {
      assert a + b == b;
    } else {
      RenderAppend(a[1..], b);
      assert (a + b)[0] == a[0] && (a + b)[1..] == a[1..] + b;
      Assoc(a[0] + [0], Render(a[1..]), Render(b));
    }
  }

  /** Reading the pairs of any listing gives back the map. */
  lemma {:induction false} PairsOfListing(ps: seq<(Bytestring, Bytestring)>, m: map<Bytestring, Bytestring>)
    requires Lists(ps, m)
    ensures Pairs(Fields(ps)) == m && |Fields(ps)| % 2 == 0 && (ps == [] <==> m == map[])
    ensures NulFreeMap(m) ==> AllNulFree(Fields(ps))
  {
    if ps != [] {
      var (k, v) := ps[|ps| - 1];
      var init := ps[..|ps| - 1];
      PairsOfListing(init, m - {k});
      var fields := Fields(ps);
      assert fields[..|fields| - 2] == Fields(init);
      assert (m - {k})[k := v] == m;
    }
  }

  /** A request survives encoding, in whatever order its options are written and whatever the
      buffer held before. */
  lemma {:induction false} RequestRoundTrip(
      buf: seq<byte>, offset: nat, op: nat, filename: Bytestring, mode: Bytestring,
      ps: seq<(Bytestring, Bytestring)>, m: map<Bytestring, Bytestring>)
    requires op == RRQ || op == WRQ
    requires NulFree(filename) && filename != [] && (mode == NETASCII || mode == OCTET)
    requires Lists(ps, m) && NulFreeMap(m)
    requires offset <= |buf| && buf[..offset] == RequestBytes(op, filename, mode, ps)
    ensures 2 <= offset && Opcode(buf) == op
    ensures Validate(buf, offset) == Valid
    ensures Filename(buf) == Ok(filename) && Mode(buf) == Ok(mode) && Options(buf, offset) == Ok(m)
  {
    var fields := [filename, mode] + Fields(ps);
    PairsOfListing(ps, m);
    HeaderBytes(buf, offset, op, Render(fields));
    HeadFields(filename, mode, Fields(ps));
    hide NETASCII, OCTET, Render, Split, Validate, Filename, Mode, Options, Pairs, Lists, Opcode, Fields;
    hide NulFree, AllNulFree, RequestBytes, Uint16Bytes;
    assert RequestFields(buf[2..offset], fields);
    ParsesTo(buf, offset, fields);
  }

  lemma HeadFields(filename: Bytestring, mode: Bytestring, rest: seq<Bytestring>)
    requires NulFree(filename) && (mode == NETASCII || mode == OCTET) && AllNulFree(rest)
    ensures var fields := [filename, mode] + rest;
      AllNulFree(fields) && fields[0] == filename && fields[1] == mode && fields[2..] == rest
  {
    assert NulFree(mode);
    hide NulFree;
  }

  /** A datagram whose fields are known parses to them. */
  lemma {:induction false} ParsesTo(buf: seq<byte>, offset: nat, fields: seq<Bytestring>)
    requires 2 <= offset <= |buf| && (Opcode(buf) == RRQ || Opcode(buf) == WRQ)
    requires RequestFields(buf[2..offset], fields)
    ensures Validate(buf, offset) == Valid
    ensures Filename(buf) == Ok(fields[0]) && Mode(buf) == Ok(fields[1])
    ensures Options(buf, offset) == Ok(Pairs(fields[2..]))
  {
    RequestValidates(buf, offset, fields);
    RequestParses(buf, offset);
    var d := buf[2..offset];
    PairedUnique(d, fields);
    hide NETASCII, OCTET, Render, Split, Validate, Filename, Mode, Options, Pairs, NulFree, AllNulFree;
    assert d[..|d| - 1] == buf[2..offset - 1];
  }

  lemma {:induction false} HeaderBytes(buf: seq<byte>, offset: nat, x: nat, rest: seq<byte>)
    requires x < 0x1_0000 && offset <= |buf| && buf[..offset] == Uint16Bytes(x) + rest
    ensures 2 <= offset && Opcode(buf) == x && buf[2..offset] == rest
  {
    assert buf[0] == buf[..offset][0] && buf[1] == buf[..offset][1];
    assert buf[2..offset] == buf[..offset][2..];
  }

  /** The same for an OACK, which is valid exactly when it acknowledges something. */
  lemma {:induction false} OackRoundTrip(
      buf: seq<byte>, offset: nat, ps: seq<(Bytestring, Bytestring)>, m: map<Bytestring, Bytestring>)
    requires Lists(ps, m) && NulFreeMap(m)
    requires offset <= |buf| && buf[..offset] == OackBytes(ps)
    ensures 2 <= offset && Opcode(buf) == OACK
    ensures Validate(buf, offset) == Valid <==> m != map[]
    ensures m != map[] ==> Options(buf, offset) == Ok(m)
  {
    var fields := Fields(ps);
    PairsOfListing(ps, m);
    HeaderBytes(buf, offset, OACK, Render(fields));
    if m != map[] {
      var d := buf[2..offset];
      assert PairedFields(d, fields);
      hide Render, Split, Validate, Options, Pairs, Lists, NulFree;
      PairedUnique(d, fields);
      OackIff(buf, offset);
      OackParses(buf, offset);
      assert d[..|d| - 1] == buf[2..offset - 1];
    }
  }

  /** DATA and ACK carry their block number and payload, ERROR its code and message. */
  lemma {:induction false} PlainRoundTrip(buf: seq<byte>, offset: nat, op: nat, x: nat, rest: seq<byte>)
    requires op == DATA || op == ACK || op == ERROR
    requires x < 0x1_0000 && offset <= |buf|
    requires buf[..offset] == Uint16Bytes(op) + Uint16Bytes(x) + rest
    ensures 4 <= offset && Opcode(buf) == op && Uint16(buf[2], buf[3]) == x && buf[4..offset] == rest
    ensures op != ERROR ==> Validate(buf, offset) == Valid
    ensures op == ERROR ==> (Validate(buf, offset) == Valid <==>
              rest != [] && rest[|rest| - 1] == 0 && NulFree(rest[..|rest| - 1]))
  {
    assert Uint16Bytes(op) + Uint16Bytes(x) + rest == Uint16Bytes(op) + (Uint16Bytes(x) + rest);
    HeaderBytes(buf, offset, op, Uint16Bytes(x) + rest);
    var d := buf[2..offset];
    assert buf[2] == d[0] && buf[3] == d[1] && buf[4..offset] == d[2..];
    ValidIffWellFormed(buf, offset);
    assert buf[..offset][4..] == rest;
    if rest != [] {
      assert buf[..offset][4..offset - 1] == rest[..|rest| - 1];
    }
  }

  /** An OACK by its bytes. */
  lemma {:induction false} OackHeader(buf: seq<byte>, offset: nat, ps: seq<(Bytestring, Bytestring)>)
    requires offset <= |buf| && buf[..offset] == Uint16Bytes(OACK) + Render(Fields(ps))
    ensures 2 <= offset && Opcode(buf) == OACK
    ensures buf[..offset] == [0, 6] + Render(Fields(ps)) == OackBytes(ps)
    ensures buf[..offset][..2] == [0, 6]
  {
    hide Render, Fields;
    HeaderBytes(buf, offset, OACK, Render(Fields(ps)));
  }

  /** An ERROR by its bytes; the message ends before the final NUL. */
  lemma {:induction false} ErrorRoundTrip(buf: seq<byte>, offset: nat, code: nat, msg: Bytestring)
    requires code < 0x1_0000 && offset <= |buf|
    requires buf[..offset] == [0, 5, code / 0x100, code % 0x100] + msg + [0]
    ensures offset == 5 + |msg| && Opcode(buf) == ERROR
    ensures Uint16(buf[2], buf[3]) == code && buf[4..offset - 1] == msg
    ensures Validate(buf, offset) == Valid <==> NulFree(msg)
  {
    assert buf[..offset] == Uint16Bytes(ERROR) + Uint16Bytes(code) + (msg + [0]);
    PlainRoundTrip(buf, offset, ERROR, code, msg + [0]);
    assert (msg + [0])[..|msg|] == msg;
    assert buf[4..offset - 1] == buf[4..offset][..|msg|];
  }

  // The literals of the formats.

  /** The modes of section 5 of RFC 1350 that are accepted. */
  lemma ModeNames()
    ensures NETASCII == Ascii("netascii") && OCTET == Ascii("octet")
  {}

  /** Numbers are written high byte first. */
  lemma BigEndian(x: nat)
    requires x < 0x1_0000
    ensures forall hi: byte, lo: byte :: hi as int * 0x100 + lo as int == x <==> Uint16Bytes(x) == [hi, lo]
  {
    forall hi: byte, lo: byte ensures hi as int * 0x100 + lo as int == x <==> Uint16Bytes(x) == [hi, lo] {
      if hi as int * 0x100 + lo as int == x {
        ModUnique(x, 0x100, hi, lo);
      }
    }
  }

  /** What each opcode makes of a datagram, told by its first two bytes: above 6 none is valid; 0 needs
      nothing more, 3 and 4 a block number, 5 a code and one NUL, at the very end, 6 strings in pairs. */
  lemma {:induction false} ValidByOpcode(buf: seq<byte>, offset: nat)
    requires offset <= |buf|
    ensures Validate(buf, offset) == Valid ==> 2 <= offset && buf[0] == 0 && buf[1] <= 6
    ensures 2 <= offset && buf[0] == 0 ==>
      && (buf[1] == 0 ==> Validate(buf, offset) == Valid)
      && (buf[1] == 3 || buf[1] == 4 ==> (Validate(buf, offset) == Valid <==> offset >= 4))
      && (buf[1] == 5 ==> (Validate(buf, offset) == Valid <==>
            offset >= 5 && buf[offset - 1] == 0 && NulFree(buf[4..offset - 1])))
      && (buf[1] == 6 ==> (Validate(buf, offset) == Valid <==>
            buf[offset - 1] == 0 && CountNul(buf[2..offset]) % 2 == 0))
  {
    ValidIffWellFormed(buf, offset);
    if 2 <= offset {
      assert buf[..offset][0] == buf[0] && buf[..offset][1] == buf[1];
      hide CountNul;
      if 5 <= offset {
        assert buf[..offset][4..offset - 1] == buf[4..offset - 1];
      }
    }
    hide NulFree, RequestFields, PairedFields, ValidateRequest;
  }

  lemma {:induction false} FieldsDecide(buf: seq<byte>, offset: nat, fields: seq<Bytestring>)
    requires 2 <= offset <= |buf| && (Opcode(buf) == RRQ || Opcode(buf) == WRQ)
    requires PairedFields(buf[2..offset], fields)
    ensures Validate(buf, offset) == Valid <==> fields[0] != [] && (fields[1] == NETASCII || fields[1] == OCTET)
  {
    hide Validate, Render, Split, NulFree, AllNulFree, Opcode;
    RequestIff(buf, offset);
    PairedUnique(buf[2..offset], fields);
    if Validate(buf, offset) == Valid {
      var other :| RequestFields(buf[2..offset], other);
      PairedUnique(buf[2..offset], other);
    } else {
      assert !RequestFields(buf[2..offset], fields);
    }
  }

  /** A request, whatever its order of options, is valid if and only if it names a file and one of the
      two modes. */
  lemma {:induction false} RequestValidExact(
      buf: seq<byte>, offset: nat, write: bool, filename: Bytestring, mode: Bytestring,
      ps: seq<(Bytestring, Bytestring)>, m: map<Bytestring, Bytestring>)
    requires NulFree(filename) && NulFree(mode) && Lists(ps, m) && NulFreeMap(m)
    requires offset <= |buf|
    requires buf[..offset] == [0, if write then 2 else 1] + Render([filename, mode] + Fields(ps))
    ensures Validate(buf, offset) == Valid
            <==> filename != [] && (mode == Ascii("netascii") || mode == Ascii("octet"))
  {
    ModeNames();
    var op := if write then WRQ else RRQ;
    assert Uint16Bytes(op) == [0, if write then 2 else 1];
    hide Validate, Render, NulFree, Opcode, NETASCII, OCTET, Lists, Ascii, Uint16Bytes, NulFreeMap, Fields;
    PairsOfListing(ps, m);
    var fields := [filename, mode] + Fields(ps);
    HeaderBytes(buf, offset, op, Render(fields));
    FieldsDecide(buf, offset, fields);
  }

  /** `options` panics exactly on fewer than three bytes and on an even number of NULs before the last
      byte, which leaves a key without its value. */
  lemma {:induction false} OptionsCrash(buf: seq<byte>, offset: nat)
    requires 2 <= |buf| && offset <= |buf|
    ensures Options(buf, offset) == Panic <==> offset < 3 || CountNul(buf[2..offset - 1]) % 2 == 0
  {
    if offset >= 3 {
      var d := buf[2..offset - 1];
      RenderSplit(d);
      OddFields(CountNul(d), 0);
      OddFields(CountNul(d), 2);
    }
    hide Split, CountNul, Pairs, Opcode, Render, NulFree, AllNulFree, Unpaired;
  }

  lemma OddFields(nuls: nat, skip: nat)
    requires skip == 0 || skip == 2
    ensures Unpaired(nuls + 1, skip) <==> nuls % 2 == 0
  {}

  /** Of a repeated key the last value counts, and every key is one of the listed. */
  lemma {:induction false} PairsExact(fields: seq<Bytestring>, j: nat, k: Bytestring)
    requires |fields| % 2 == 0
    ensures 2 * j < |fields| && (forall i :: j < i < |fields| / 2 ==> fields[2 * i] != fields[2 * j]) ==>
              fields[2 * j] in Pairs(fields) && Pairs(fields)[fields[2 * j]] == fields[2 * j + 1]
    ensures k in Pairs(fields) ==> exists i :: 0 <= i < |fields| / 2 && fields[2 * i] == k
    decreases |fields|
  {
    if fields != [] {
      var n := |fields| / 2 - 1;
      var init := fields[..|fields| - 2];
      assert |init| == 2 * n && fields[2 * n] == fields[|fields| - 2];
      PairsExact(init, j, k);
      if k in Pairs(init) {
        var i :| 0 <= i < n && init[2 * i] == k;
        assert fields[2 * i] == k;
      }
    }
  }
}
