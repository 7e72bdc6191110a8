/** Option negotiation: decimal numbers as `strconv` reads and prints them, and `parseOptions`
    (RFC 2347, RFC 2348, RFC 2349 and RFC 7440). */
module Negotiation {
  import opened Bytes
  import opened Codec

  datatype Option<T> = None | Some(value: T)

  // Decimal numbers.

  predicate IsDigit(b: byte) {
    48 <= b <= 57
  }

  predicate AllDigits(s: Bytestring) {
    forall i :: 0 <= i < |s| ==> IsDigit(s[i])
  }

  function Value(s: Bytestring): nat
    requires AllDigits(s)
  {
    if s == [] then 0 else 10 * Value(s[..|s| - 1]) + (s[|s| - 1] - 48)
  }

  /** `strconv.ParseUint(s, 10, bits)` for `limit` = 2^bits. */
  function ParseUint(s: Bytestring, limit: int): Option<nat> {
    if s != [] && AllDigits(s) && Value(s) < limit then Some(Value(s)) else None
  }

  const I63: int := 0x8000_0000_0000_0000
  const PLUS: byte := 43
  const MINUS: byte := 45

  /** `strconv.ParseInt(s, 10, 64)`. */
  function ParseInt64(s: Bytestring): Option<int> {
    if s != [] && s[0] == MINUS then
      match ParseUint(s[1..], I63 + 1) case Some(n) => Some(0 - n as int) case None => None
    else
      var digits := if s != [] && s[0] == PLUS then s[1..] else s;
      match ParseUint(digits, I63) case Some(n) => Some(n as int) case None => None
  }

  function FormatUint(n: nat): (s: Bytestring)
    ensures s != [] && AllDigits(s)
  {
    if n < 10 then [48 + n] else FormatUint(n / 10) + [48 + n % 10]
  }

  /** `strconv.FormatInt(i, 10)`. */
  function FormatInt(i: int): Bytestring {
    if i < 0 then [MINUS] + FormatUint(-i) else FormatUint(i)
  }

  lemma {:induction false} ValueFormat(n: nat)
    ensures Value(FormatUint(n)) == n
  {
    var s := FormatUint(n);
    if n < 10 {
      assert s[..0] == [];
    } else {
      ValueFormat(n / 10);
      assert s[..|s| - 1] == FormatUint(n / 10);
    }
  }

  /** Every 64-bit size survives the decimal round trip. */
  lemma {:induction false} DecimalRoundTrip(i: int)
    requires -I63 <= i < I63
    ensures ParseInt64(FormatInt(i)) == Some(i)
    ensures NulFree(FormatInt(i))
  {
    ValueFormat(if i < 0 then -i else i);
    var s := FormatInt(i);
    if i < 0 {
      assert s[1..] == FormatUint(-i);
    } else {
      assert IsDigit(s[0]);
    }
  }

  // Options.

  /** "blksize", "timeout", "tsize" and "windowsize". */
  const BLKSIZE: Bytestring := [98, 108, 107, 115, 105, 122, 101]
  const TIMEOUT: Bytestring := [116, 105, 109, 101, 111, 117, 116]
  const TSIZE: Bytestring := [116, 115, 105, 122, 101]
  const WINDOWSIZE: Bytestring := [119, 105, 110, 100, 111, 119, 115, 105, 122, 101]

  lemma NamesDiffer()
    ensures BLKSIZE != TIMEOUT && BLKSIZE != TSIZE && BLKSIZE != WINDOWSIZE
    ensures TIMEOUT != TSIZE && TIMEOUT != WINDOWSIZE && TSIZE != WINDOWSIZE
  {
    assert BLKSIZE[0] != TIMEOUT[0];
  }

  type OptionMap = map<Bytestring, Bytestring>

  datatype Params = Params(blksize: nat, windowsize: nat, timeout: nat, tsize: Option<int>)

  /** `newConn` and `newSinglePortConn`. */
  const DEFAULTS: Params := Params(512, 1, 1, None)

  /** The value of a known option can be read; other options do not matter. */
  predicate Readable(k: Bytestring, v: Bytestring) {
    && (k == BLKSIZE || k == WINDOWSIZE ==> ParseUint(v, 0x1_0000).Some?)
    && (k == TIMEOUT ==> ParseUint(v, 0x100).Some?)
    && (k == TSIZE ==> ParseInt64(v).Some?)
  }

  ghost predicate AllReadable(m: OptionMap) {
    forall k :: k in m ==> Readable(k, m[k])
  }

  function Field(m: OptionMap, k: Bytestring, limit: nat, default: nat): nat {
    if k in m && ParseUint(m[k], limit).Some? then ParseUint(m[k], limit).value else default
  }

  /** A sender that knows the size keeps it and reports it; else a received size is recorded. */
  predicate ReportsSize(p: Params, isSender: bool) {
    isSender && p.tsize.Some?
  }

  function NegotiatedSize(p: Params, isSender: bool, m: OptionMap): Option<int> {
    if TSIZE in m && !ReportsSize(p, isSender) && ParseInt64(m[TSIZE]).Some? then ParseInt64(m[TSIZE]) else p.tsize
  }

  /** The parameters after reading all of `m`. */
  function Negotiated(p: Params, isSender: bool, m: OptionMap): Params {
    Params(Field(m, BLKSIZE, 0x1_0000, p.blksize), Field(m, WINDOWSIZE, 0x1_0000, p.windowsize),
           Field(m, TIMEOUT, 0x100, p.timeout), NegotiatedSize(p, isSender, m))
  }

  predicate Acknowledged(p: Params, isSender: bool, k: Bytestring) {
    k == BLKSIZE || k == WINDOWSIZE || k == TIMEOUT || (k == TSIZE && ReportsSize(p, isSender))
  }

  /** The options acknowledged: those understood, with the requested value, and the size. */
  function AckOptions(p: Params, isSender: bool, m: OptionMap): OptionMap {
    map k | k in m && Acknowledged(p, isSender, k) ::
      if k == TSIZE && p.tsize.Some? then FormatInt(p.tsize.value) else m[k]
  }

  /** What one option adds to the parameters read before it. */
  lemma ReadParam(p: Params, isSender: bool, m: OptionMap, k: Bytestring, v: Bytestring)
    requires k !in m && Readable(k, v)
    ensures var q := Negotiated(p, isSender, m); var q' := Negotiated(p, isSender, m[k := v]);
      && (k == BLKSIZE ==> q' == q.(blksize := ParseUint(v, 0x1_0000).value))
      && (k == WINDOWSIZE ==> q' == q.(windowsize := ParseUint(v, 0x1_0000).value))
      && (k == TIMEOUT ==> q' == q.(timeout := ParseUint(v, 0x100).value))
      && (k == TSIZE ==> q' == if ReportsSize(p, isSender) then q else q.(tsize := ParseInt64(v)))
      && (k != BLKSIZE && k != WINDOWSIZE && k != TIMEOUT && k != TSIZE ==> q' == q)
  {
    NamesDiffer();
    hide ParseUint, ParseInt64, BLKSIZE, TIMEOUT, TSIZE, WINDOWSIZE;
  }

  /** What one option adds to the acknowledgement. */
  lemma ReadAck(p: Params, isSender: bool, m: OptionMap, k: Bytestring, v: Bytestring)
    requires k !in m
    ensures var a := AckOptions(p, isSender, m); var a' := AckOptions(p, isSender, m[k := v]);
      a' == if !Acknowledged(p, isSender, k) then a
            else a[k := if k == TSIZE && p.tsize.Some? then FormatInt(p.tsize.value) else v]
  {
    hide FormatInt, BLKSIZE, TIMEOUT, TSIZE, WINDOWSIZE;
  }

  class Conn {
    const isSender: bool
    var blksize: nat
    var windowsize: nat
    var timeout: nat
    var tsize: Option<int>
    var optionsParsed: bool

    ghost function View(): Params
      reads this
    {
      Params(blksize, windowsize, timeout, tsize)
    }

    constructor (isSender: bool, tsize: Option<int>)
      ensures View() == DEFAULTS.(tsize := tsize) == Params(512, 1, 1, tsize)
      ensures this.isSender == isSender && !optionsParsed
    {
      this.isSender := isSender;
      blksize, windowsize, timeout, this.tsize, optionsParsed := 512, 1, 1, tsize, false;
    }

    /** One iteration of the loop of `parseOptions`, after the options in `seen`. */
    method ReadOption(ghost p: Params, ghost seen: OptionMap, k: Bytestring, v: Bytestring, ackOpts: OptionMap)
        returns (ok: bool, acks: OptionMap)
      requires View() == Negotiated(p, isSender, seen) && ackOpts == AckOptions(p, isSender, seen) && k !in seen
      modifies this`blksize, this`windowsize, this`timeout, this`tsize
      ensures ok <==> Readable(k, v)
      ensures ok ==> View() == Negotiated(p, isSender, seen[k := v]) && acks == AckOptions(p, isSender, seen[k := v])
    {
      NamesDiffer();
      if Readable(k, v) {
        ReadParam(p, isSender, seen, k, v);
      }
      ReadAck(p, isSender, seen, k, v);
      assert k == TSIZE ==> tsize == p.tsize;
      hide ParseUint, ParseInt64, FormatInt, Negotiated, AckOptions, BLKSIZE, TIMEOUT, TSIZE, WINDOWSIZE;
      acks := ackOpts;
      if k == BLKSIZE {
        var size := ParseUint(v, 0x1_0000);
        if size.None? { return false, acks; }
        blksize, acks := size.value, acks[k := v];
      } else if k == TIMEOUT {
        var seconds := ParseUint(v, 0x100);
        if seconds.None? { return false, acks; }
        timeout, acks := seconds.value, acks[k := v];
      } else if k == TSIZE {
        var size := ParseInt64(v);
        if size.None? { return false, acks; }
        if isSender && tsize.Some? {
          acks := acks[k := FormatInt(tsize.value)];
        } else {
          tsize := Some(size.value);
        }
      } else if k == WINDOWSIZE {
        var size := ParseUint(v, 0x1_0000);
        if size.None? { return false, acks; }
        windowsize, acks := size.value, acks[k := v];
      }
      ok := true;
    }

    /** `parseOptions`: walks the options in any order. It succeeds exactly when every known option
        can be read, and then neither the parameters nor the acknowledgement depend on the order. */
    method ParseOptions(options: OptionMap) returns (r: Option<OptionMap>)
      modifies this
      ensures r.Some? <==> AllReadable(options)
      ensures r.Some? ==>
                && View() == Negotiated(old(View()), isSender, options) && optionsParsed
                && r.value == AckOptions(old(View()), isSender, options)
      ensures r.None? ==> optionsParsed == old(optionsParsed)
    {
      var ackOpts: OptionMap := map[];
      var rest := options;
      ghost var p, seen: OptionMap := View(), map[];
      NothingRead(p, isSender, options);
      hide Negotiated, AckOptions, Readable, AllReadable, Partition;
      while rest != map[]
        modifies `blksize, `windowsize, `timeout, `tsize
        invariant Partition(rest, seen, options) && AllReadable(seen)
        invariant View() == Negotiated(p, isSender, seen) && ackOpts == AckOptions(p, isSender, seen)
        decreases |rest|
      {
        var k :| k in rest;
        MoveEntry(rest, seen, options, k);
        OneReadable(seen, options, k);
        var ok;
        ok, ackOpts := ReadOption(p, seen, k, rest[k], ackOpts);
        if !ok {
          return None;
        }
        rest, seen := rest - {k}, seen[k := rest[k]];
      }
      AllMoved(seen, options);
      optionsParsed := true;
      r := Some(ackOpts);
    }
  }

  lemma NothingRead(p: Params, isSender: bool, m: OptionMap)
    ensures Partition(m, map[], m) && AllReadable(map[])
    ensures Negotiated(p, isSender, map[]) == p && AckOptions(p, isSender, map[]) == map[]
  {
    assert m + map[] == m;
  }

  lemma OneReadable(seen: OptionMap, m: OptionMap, k: Bytestring)
    requires AllReadable(seen) && k in m
    ensures if Readable(k, m[k]) then AllReadable(seen[k := m[k]]) else !AllReadable(m)
  {
    hide Readable;
  }

  // What the options mean, by their names on the wire and their values as numbers.

  lemma OptionNames()
    ensures BLKSIZE == Ascii("blksize") && WINDOWSIZE == Ascii("windowsize")
    ensures TIMEOUT == Ascii("timeout") && TSIZE == Ascii("tsize")
  {}

  lemma {:induction false} ParseFormat(n: nat, limit: int)
    ensures ParseUint(FormatUint(n), limit) == if n < limit then Some(n) else None
  {
    ValueFormat(n);
  }

  /** Numbers are decimal; leading zeros do not matter. */
  lemma DecimalDigits()
    ensures FormatUint(1428) == Ascii("1428") && FormatInt(-90) == Ascii("-90")
    ensures ParseUint(Ascii("0512"), 0x1_0000) == Some(512)
  {
    assert FormatUint(1) == [49] && FormatUint(14) == [49, 52] && FormatUint(142) == [49, 52, 50];
    assert FormatUint(9) == [57];
    var s := Ascii("0512");
    assert s == [48, 53, 49, 50];
    assert Value([]) == 0;
    assert s[..1][..0] == [] && Value(s[..1]) == 0;
    assert s[..2][..1] == s[..1] && Value(s[..2]) == 5;
    assert s[..3][..2] == s[..2] && Value(s[..3]) == 51;
    assert s[..4] == s && s[..4][..3] == s[..3];
  }

  /** Which values of the four options can be read: block and window size up to 16 bits, the timeout up
      to 8, and a signed size of 64 bits, which alone may carry a sign. No value can be empty. */
  lemma {:induction false} ReadableExact(n: nat, i: int)
    ensures Readable(Ascii("blksize"), FormatUint(n)) <==> n <= 65535
    ensures Readable(Ascii("windowsize"), FormatUint(n)) <==> n <= 65535
    ensures Readable(Ascii("timeout"), FormatUint(n)) <==> n <= 255
    ensures Readable(Ascii("tsize"), FormatInt(i)) <==> -0x8000_0000_0000_0000 <= i < 0x8000_0000_0000_0000
    ensures Readable(Ascii("tsize"), [PLUS] + FormatUint(n)) <==> n < 0x8000_0000_0000_0000
    ensures !Readable(Ascii("blksize"), [PLUS] + FormatUint(n)) && !Readable(Ascii("timeout"), [PLUS] + FormatUint(n))
    ensures forall k: Bytestring :: k == BLKSIZE || k == WINDOWSIZE || k == TIMEOUT || k == TSIZE <==> !Readable(k, [])
  {
    OptionNames();
    NamesDiffer();
    ParseFormat(n, 0x1_0000);
    ParseFormat(n, 0x100);
    SignedFormat(i);
    PlusSign(n);
    hide ParseUint, ParseInt64, FormatUint, FormatInt, BLKSIZE, TIMEOUT, TSIZE, WINDOWSIZE, Ascii;
    assert ParseUint([], 0x1_0000).None? && ParseUint([], 0x100).None? && ParseInt64([]).None? by { NothingToParse(); }
  }

  lemma NothingToParse()
    ensures forall limit :: ParseUint([], limit).None?
    ensures ParseInt64([]).None?
  {}

  lemma {:induction false} PlusSign(n: nat)
    ensures ParseInt64([PLUS] + FormatUint(n)) == if n < I63 then Some(n) else None
    ensures forall limit :: ParseUint([PLUS] + FormatUint(n), limit).None?
  {
    ParseFormat(n, I63);
    var s := [PLUS] + FormatUint(n);
    assert s[1..] == FormatUint(n);
    assert !IsDigit(s[0]);
    hide FormatUint, Value;
  }

  lemma {:induction false} SignedFormat(i: int)
    ensures ParseInt64(FormatInt(i)) == if -I63 <= i < I63 then Some(i) else None
  {
    ParseFormat(if i < 0 then -i else i, if i < 0 then I63 + 1 else I63);
    var s := FormatInt(i);
    if i < 0 {
      assert s[1..] == FormatUint(-i);
    } else {
      assert IsDigit(s[0]);
    }
    hide FormatUint, Value;
  }

  /** What an end has after reading the options: each parameter from its own option and no other, and
      as it was when the option is missing. A sender that knows the size keeps it. */
  lemma {:induction false} NegotiatedExact(p: Params, isSender: bool, m: OptionMap, n: nat, i: int)
    ensures var q := Negotiated(p, isSender, m);
      && (Ascii("blksize") !in m ==> q.blksize == p.blksize)
      && (Ascii("windowsize") !in m ==> q.windowsize == p.windowsize)
      && (Ascii("timeout") !in m ==> q.timeout == p.timeout)
      && (Ascii("tsize") !in m ==> q.tsize == p.tsize)
      && (n <= 65535 && Ascii("blksize") in m && m[Ascii("blksize")] == FormatUint(n) ==> q.blksize == n)
      && (n <= 65535 && Ascii("windowsize") in m && m[Ascii("windowsize")] == FormatUint(n) ==> q.windowsize == n)
      && (n <= 255 && Ascii("timeout") in m && m[Ascii("timeout")] == FormatUint(n) ==> q.timeout == n)
      && (-I63 <= i < I63 && Ascii("tsize") in m && m[Ascii("tsize")] == FormatInt(i) ==>
            q.tsize == if isSender && p.tsize.Some? then p.tsize else Some(i))
  {
    OptionNames();
    ParseFormat(n, 0x1_0000);
    ParseFormat(n, 0x100);
    SignedFormat(i);
    hide ParseUint, ParseInt64, FormatUint, FormatInt, BLKSIZE, TIMEOUT, TSIZE, WINDOWSIZE, Ascii;
  }

  /** What is acknowledged: block size, window size and timeout whenever they were requested, with the
      requested value; the size only by a sender that knows it, with the value that it knows; and
      nothing else. */
  lemma {:induction false} AcknowledgedExact(p: Params, isSender: bool, m: OptionMap, k: Bytestring)
    ensures k in AckOptions(p, isSender, m)
            <==> (&& k in m
                  && (k == Ascii("blksize") || k == Ascii("windowsize") || k == Ascii("timeout")
                      || (k == Ascii("tsize") && isSender && p.tsize.Some?)))
    ensures k in AckOptions(p, isSender, m) ==>
              AckOptions(p, isSender, m)[k] == if k == Ascii("tsize") then FormatInt(p.tsize.value) else m[k]
  {
    OptionNames();
    NamesDiffer();
    hide FormatInt, BLKSIZE, TIMEOUT, TSIZE, WINDOWSIZE, Ascii;
  }

  /** A request for the size alone, to an end that does not know it, is not acknowledged at all. */
  lemma SizeUnknown(p: Params, isSender: bool, v: Bytestring)
    requires !isSender || p.tsize.None?
    ensures AckOptions(p, isSender, map[Ascii("tsize") := v]) == map[]
  {
    OptionNames();
    NamesDiffer();
    hide FormatInt, BLKSIZE, TIMEOUT, TSIZE, WINDOWSIZE, Ascii;
  }

  // Agreement of the two ends.

  /** Every value that is acknowledged can be read by the other end, and sent to it. */
  lemma AckReadable(p: Params, isSender: bool, m: OptionMap)
    requires AllReadable(m) && NulFreeMap(m)
    requires p.tsize.Some? ==> -I63 <= p.tsize.value < I63
    ensures AllReadable(AckOptions(p, isSender, m)) && NulFreeMap(AckOptions(p, isSender, m))
    ensures AckOptions(p, isSender, m).Keys <= m.Keys
  {
    NamesDiffer();
    if p.tsize.Some? {
      DecimalRoundTrip(p.tsize.value);
    }
    hide ParseUint, ParseInt64, FormatInt, NulFree, BLKSIZE, TIMEOUT, TSIZE, WINDOWSIZE;
  }

  /** The three sizes that both ends must agree on. */
  predicate Agree(p: Params, q: Params) {
    p.blksize == q.blksize && p.windowsize == q.windowsize && p.timeout == q.timeout
  }

  /** Reading the acknowledgement gives what the acknowledging end has. */
  lemma AckAgrees(server: Params, client: Params, serverSends: bool, m: OptionMap)
    requires AllReadable(m) && Agree(server, client)
    ensures var ack := AckOptions(server, serverSends, m);
      Agree(Negotiated(server, serverSends, m), Negotiated(client, !serverSends, ack))
    ensures var ack := AckOptions(server, serverSends, m);
      BLKSIZE !in ack && WINDOWSIZE !in ack && TIMEOUT !in ack ==> Agree(Negotiated(server, serverSends, m), client)
  {
    NamesDiffer();
    hide ParseUint, ParseInt64, FormatInt, BLKSIZE, TIMEOUT, TSIZE, WINDOWSIZE;
  }

  /** Negotiation over the wire. The client's request arrives in the server's buffer, the server's
      OACK in the client's, each encoded in its own order and followed by anything; then both ends
      have read what the other wrote, and agree on block size, window size and timeout. On a read
      request for the size, the client learns the size that the server's handler had set. */
  lemma {:induction false} OackAgreement(
      req: seq<byte>, reqLen: nat, op: nat, filename: Bytestring, mode: Bytestring,
      m: OptionMap, reqOrder: seq<(Bytestring, Bytestring)>, size: Option<int>,
      oack: seq<byte>, oackLen: nat, oackOrder: seq<(Bytestring, Bytestring)>)
    requires op == RRQ || op == WRQ
    requires NulFree(filename) && filename != [] && (mode == NETASCII || mode == OCTET)
    requires NulFreeMap(m) && AllReadable(m)
    requires size.Some? ==> -I63 <= size.value < I63
    requires Lists(reqOrder, m)
    requires reqLen <= |req| && req[..reqLen] == RequestBytes(op, filename, mode, reqOrder)
    requires var ack := AckOptions(DEFAULTS.(tsize := size), op == RRQ, m); ack != map[] && Lists(oackOrder, ack)
    requires oackLen <= |oack| && oack[..oackLen] == OackBytes(oackOrder)
    ensures Validate(req, reqLen) == Valid && Options(req, reqLen) == Ok(m)
    ensures var server := DEFAULTS.(tsize := size); var ack := AckOptions(server, op == RRQ, m);
      && Validate(oack, oackLen) == Valid && Options(oack, oackLen) == Ok(ack)
      && ack.Keys <= m.Keys && AllReadable(ack)
      && Agree(Negotiated(server, op == RRQ, m), Negotiated(DEFAULTS, op != RRQ, ack))
      && (op == RRQ && TSIZE in m && size.Some? ==> Negotiated(DEFAULTS, false, ack).tsize == size)
  {
    var server := DEFAULTS.(tsize := size);
    var ack := AckOptions(server, op == RRQ, m);
    RequestRoundTrip(req, reqLen, op, filename, mode, reqOrder, m);
    AckReadable(server, op == RRQ, m);
    OackRoundTrip(oack, oackLen, oackOrder, ack);
    AckAgrees(server, DEFAULTS, op == RRQ, m);
    if op == RRQ && TSIZE in m && size.Some? {
      DecimalRoundTrip(size.value);
      assert ack[TSIZE] == FormatInt(size.value);
    }
  }

  /** On a write request of which nothing is acknowledged the reply is ACK 0; the client reads no
      known option from it, and both ends stay with the defaults. */
  lemma {:induction false} AckZeroAgreement(ack: seq<byte>, m: OptionMap, size: Option<int>)
    requires AllReadable(m) && AckOptions(DEFAULTS.(tsize := size), false, m) == map[]
    requires 4 <= |ack| && ack[..4] == Uint16Bytes(ACK) + Uint16Bytes(0)
    ensures Options(ack, 4) == Ok(map[[] := []])
    ensures Agree(Negotiated(DEFAULTS.(tsize := size), false, m), Negotiated(DEFAULTS, true, map[[] := []]))
  {
    AckZeroOptions(ack);
    hide Options;
    AckAgrees(DEFAULTS.(tsize := size), DEFAULTS, false, m);
    NamesNonEmpty();
    hide AllReadable, BLKSIZE, TIMEOUT, TSIZE, WINDOWSIZE, ParseUint, ParseInt64;
  }

  lemma {:induction false} AckZeroOptions(ack: seq<byte>)
    requires 4 <= |ack| && ack[..4] == Uint16Bytes(ACK) + Uint16Bytes(0)
    ensures Options(ack, 4) == Ok(map[[] := []])
  {
    HeaderBytes(ack, 4, ACK, Uint16Bytes(0));
    assert ack[2..3] == ack[..4][2..3] == [0];
    SplitNul();
    hide Split, Pairs;
    var fields: seq<Bytestring> := [[], []];
    assert fields[0..] == fields;
  }

  /** One NUL separates two empty strings: an empty key with an empty value. */
  lemma {:induction false} SplitNul()
    ensures Split([0]) == [[], []] && Pairs([[], []]) == map[[] := []]
  {
    assert Split([]) == [[]];
    SplitAppend([], []);
    assert [] + [0] + [] == [0];
    hide Split;
    var fields: seq<Bytestring> := [[], []];
    assert fields[..0] == [];
  }

  lemma NamesNonEmpty()
    ensures BLKSIZE != [] && TIMEOUT != [] && TSIZE != [] && WINDOWSIZE != []
  {}
}
