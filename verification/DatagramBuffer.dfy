/** The datagram buffer that the program fills in place and reuses. Constructors first compute the
    length, then write; the options map is walked twice, in any order each time. */
module DatagramBuffer {
  import opened Bytes
  import opened Codec

  /** The space that the options take: the sum over the map of both strings and two NULs. */
  ghost function OptionSpace(m: map<Bytestring, Bytestring>): nat
    decreases |m|
  {
    if m == map[] then 0
    else
      var k :| k in m;
      assert (m - {k}).Keys == m.Keys - {k};
      |k| + 1 + |m[k]| + 1 + OptionSpace(m - {k})
  }

  /** The sum does not depend on which entry is counted first. */
  lemma {:induction false} OptionSpaceRemove(m: map<Bytestring, Bytestring>, k: Bytestring)
    requires k in m
    ensures OptionSpace(m) == |k| + 1 + |m[k]| + 1 + OptionSpace(m - {k})
    decreases |m|
  {
    var j :| j in m && OptionSpace(m) == |j| + 1 + |m[j]| + 1 + OptionSpace(m - {j});
    if j != k {
      assert (m - {j}).Keys == m.Keys - {j} && (m - {k}).Keys == m.Keys - {k};
      OptionSpaceRemove(m - {j}, k);
      OptionSpaceRemove(m - {k}, j);
      assert m - {j} - {k} == m - {k} - {j};
    }
  }

  class Datagram {
    var buf: array<byte>
    var offset: nat

    ghost predicate Valid()
      reads this
    {
      offset <= buf.Length
    }

    /** The datagram in the buffer. */
    ghost function Bytes(): Bytestring
      requires Valid()
      reads this, buf
    {
      buf[..offset]
    }

    constructor ()
      ensures Valid() && offset == 0 && fresh(buf)
    {
      buf := new byte[0];
      offset := 0;
    }

    /** Empties the datagram and makes room for `size` bytes, in the old buffer if it is large
        enough. */
    method Reset(size: nat)
      modifies this
      ensures Valid() && Bytes() == [] && size <= buf.Length
      ensures if old(buf.Length) >= size then buf == old(buf) else fresh(buf)
    {
      if buf.Length < size {
        buf := new byte[size](_ => 0);
      }
      offset := 0;
    }

    method WriteBytes(b: Bytestring)
      requires Valid() && offset + |b| <= buf.Length
      modifies this`offset, buf
      ensures Valid() && Bytes() == old(Bytes()) + b
    {
      for i := 0 to |b|
        modifies buf
        invariant buf[..offset] == old(buf[..offset])
        invariant buf[offset..offset + i] == b[..i]
      {
        buf[offset + i] := b[i];
      }
      assert buf[..offset + |b|] == buf[..offset] + buf[offset..offset + |b|];
      offset := offset + |b|;
    }

    method WriteNull()
      requires Valid() && offset < buf.Length
      modifies this`offset, buf
      ensures Valid() && Bytes() == old(Bytes()) + [0]
    {
      WriteBytes([0]);
    }

    method WriteUint16(x: nat)
      requires Valid() && x < 0x1_0000 && offset + 2 <= buf.Length
      modifies this`offset, buf
      ensures Valid() && Bytes() == old(Bytes()) + Uint16Bytes(x)
    {
      WriteBytes(Uint16Bytes(x));
    }

    method WriteOption(k: Bytestring, v: Bytestring)
      requires Valid() && offset + |k| + 1 + |v| + 1 <= buf.Length
      modifies this`offset, buf
      ensures Valid() && Bytes() == old(Bytes()) + Render([k, v])
      ensures offset == old(offset) + |k| + 1 + |v| + 1
    {
      assert Render([k, v]) == k + [0] + v + [0] by { RenderTwo(k, v); }
      WriteBytes(k);
      WriteNull();
      WriteBytes(v);
      WriteNull();
      assert Bytes() == old(Bytes()) + k + [0] + v + [0];
    }

    method WriteAck(block: nat)
      requires block < 0x1_0000
      modifies this, buf
      ensures Valid() && (buf == old(buf) || fresh(buf))
      ensures Validate(buf[..], offset) == Codec.Valid && Opcode(buf[..]) == ACK
      ensures offset == 4 && Uint16(buf[2], buf[3]) == block
      ensures Bytes() == [0, 4, block / 0x100, block % 0x100]
    {
      Reset(2 + 2);
      WriteUint16(ACK);
      WriteUint16(block);
      assert Bytes() == Uint16Bytes(ACK) + Uint16Bytes(block) + [];
      PlainRoundTrip(buf[..], offset, ACK, block, []);
    }

    method WriteData(block: nat, data: Bytestring)
      requires block < 0x1_0000
      modifies this, buf
      ensures Valid() && (buf == old(buf) || fresh(buf))
      ensures Validate(buf[..], offset) == Codec.Valid && Opcode(buf[..]) == DATA
      ensures offset == 4 + |data| && Uint16(buf[2], buf[3]) == block && buf[4..offset] == data
      ensures Bytes() == [0, 3, block / 0x100, block % 0x100] + data
    {
      Reset(2 + 2 + |data|);
      WriteUint16(DATA);
      WriteUint16(block);
      WriteBytes(data);
      assert Bytes() == Uint16Bytes(DATA) + Uint16Bytes(block) + data;
      PlainRoundTrip(buf[..], offset, DATA, block, data);
    }

    /** The message of a valid ERROR ends before the final NUL. */
    method WriteError(code: nat, msg: Bytestring)
      requires code < 0x1_0000
      modifies this, buf
      ensures Valid() && (buf == old(buf) || fresh(buf))
      ensures offset == 5 + |msg| && Opcode(buf[..]) == ERROR
      ensures Bytes() == [0, 5, code / 0x100, code % 0x100] + msg + [0]
      ensures Uint16(buf[2], buf[3]) == code && buf[4..offset - 1] == msg
      ensures Validate(buf[..], offset) == Codec.Valid <==> NulFree(msg)
    {
      Reset(2 + 2 + |msg| + 1);
      WriteUint16(ERROR);
      WriteUint16(code);
      WriteBytes(msg);
      WriteNull();
      assert Bytes() == [0, 5, code / 0x100, code % 0x100] + msg + [0];
      assert Bytes() == buf[..][..offset];
      hide Validate, Opcode, NulFree;
      ErrorRoundTrip(buf[..], offset, code, msg);
      assert buf[4..offset - 1] == buf[..][4..offset - 1];
    }

    /** The first walk over the options. */
    static method MeasureOptions(options: map<Bytestring, Bytestring>) returns (optLen: nat)
      ensures optLen == OptionSpace(options)
    {
      optLen := 0;
      var rest := options;
      while rest != map[]
        invariant optLen + OptionSpace(rest) == OptionSpace(options)
        decreases |rest|
      {
        var k :| k in rest;
        OptionSpaceRemove(rest, k);
        assert (rest - {k}).Keys == rest.Keys - {k};
        optLen := optLen + |k| + 1 + |rest[k]| + 1;
        rest := rest - {k};
      }
    }

    /** The second walk: whatever the order, the entries are written one after the other and
        fill exactly the space measured. */
    method WriteOptions(options: map<Bytestring, Bytestring>) returns (ghost ps: seq<(Bytestring, Bytestring)>)
      requires Valid() && offset + OptionSpace(options) <= buf.Length
      modifies this`offset, buf
      ensures Valid() && Lists(ps, options)
      ensures Bytes() == old(Bytes()) + Render(Fields(ps))
      ensures offset == old(offset) + OptionSpace(options)
    {
      ps := [];
      var rest := options;
      ghost var written: map<Bytestring, Bytestring> := map[];
      assert old(Bytes()) + Render(Fields([])) == old(Bytes());
      while rest != map[]
        invariant Valid() && offset + OptionSpace(rest) == old(offset) + OptionSpace(options)
        invariant Partition(rest, written, options)
        invariant Lists(ps, written)
        invariant Bytes() == old(Bytes()) + Render(Fields(ps))
        decreases |rest|
      {
        var k :| k in rest;
        var v := rest[k];
        OptionSpaceRemove(rest, k);
        ListsExtend(ps, written, k, v);
        MoveEntry(rest, written, options, k);
        Assoc(old(Bytes()), Render(Fields(ps)), Render([k, v]));
        hide OptionSpace, Lists, Fields, Render, Partition;
        WriteOption(k, v);
        ps := ps + [(k, v)];
        rest, written := rest - {k}, written[k := v];
      }
      assert rest + written == written;
    }

    /** `writeReq`: fills exactly the precomputed length; and what the accessors read from the
        buffer afterwards is what was written, for every name, mode and options they can carry. */
    method WriteReq(op: nat, filename: Bytestring, mode: Bytestring, options: map<Bytestring, Bytestring>)
      requires op == RRQ || op == WRQ
      modifies this, buf
      ensures Valid() && (buf == old(buf) || fresh(buf))
      ensures offset == 2 + |filename| + 1 + |mode| + 1 + OptionSpace(options)
      ensures Bytes()[..4 + |filename| + |mode|] == Uint16Bytes(op) + filename + [0] + mode + [0]
      ensures NulFree(filename) && filename != [] && (mode == NETASCII || mode == OCTET) && NulFreeMap(options) ==>
                && Validate(buf[..], offset) == Codec.Valid && Opcode(buf[..]) == op
                && Filename(buf[..]) == Ok(filename) && Mode(buf[..]) == Ok(mode)
                && Codec.Options(buf[..], offset) == Ok(options)
    {
      var optLen := MeasureOptions(options);
      hide OptionSpace, Lists, Fields, Render, Validate, Codec.Options, Filename, Mode, Opcode, NulFree, NulFreeMap;
      Reset(2 + |filename| + 1 + |mode| + 1 + optLen);
      WriteRequestHead(op, filename, mode);
      ghost var head := Bytes();
      ghost var ps := WriteOptions(options);
      RenderAppend([filename, mode], Fields(ps));
      assert Bytes() == RequestBytes(op, filename, mode, ps);
      assert Bytes() == buf[..][..offset];
      assert Bytes()[..4 + |filename| + |mode|] == head;
      if NulFree(filename) && filename != [] && (mode == NETASCII || mode == OCTET) && NulFreeMap(options) {
        RequestRoundTrip(buf[..], offset, op, filename, mode, ps, options);
      }
    }

    /** `writeReadReq`. */
    method WriteReadReq(filename: Bytestring, mode: Bytestring, options: map<Bytestring, Bytestring>)
      modifies this, buf
      ensures Valid() && (buf == old(buf) || fresh(buf))
      ensures offset == 2 + |filename| + 1 + |mode| + 1 + OptionSpace(options)
      ensures Bytes()[..4 + |filename| + |mode|] == [0, 1] + filename + [0] + mode + [0]
      ensures NulFree(filename) && filename != [] && NulFreeMap(options)
              && (mode == Ascii("netascii") || mode == Ascii("octet")) ==>
                && Validate(buf[..], offset) == Codec.Valid && Filename(buf[..]) == Ok(filename)
                && Mode(buf[..]) == Ok(mode) && Codec.Options(buf[..], offset) == Ok(options)
    {
      ModeNames();
      hide NETASCII, OCTET, Ascii, Validate, Codec.Options, Filename, Mode, OptionSpace;
      WriteReq(RRQ, filename, mode, options);
    }

    /** `writeWriteReq`. */
    method WriteWriteReq(filename: Bytestring, mode: Bytestring, options: map<Bytestring, Bytestring>)
      modifies this, buf
      ensures Valid() && (buf == old(buf) || fresh(buf))
      ensures offset == 2 + |filename| + 1 + |mode| + 1 + OptionSpace(options)
      ensures Bytes()[..4 + |filename| + |mode|] == [0, 2] + filename + [0] + mode + [0]
      ensures NulFree(filename) && filename != [] && NulFreeMap(options)
              && (mode == Ascii("netascii") || mode == Ascii("octet")) ==>
                && Validate(buf[..], offset) == Codec.Valid && Filename(buf[..]) == Ok(filename)
                && Mode(buf[..]) == Ok(mode) && Codec.Options(buf[..], offset) == Ok(options)
    {
      ModeNames();
      hide NETASCII, OCTET, Ascii, Validate, Codec.Options, Filename, Mode, OptionSpace;
      WriteReq(WRQ, filename, mode, options);
    }

    /** Opcode, file name and mode. */
    method WriteRequestHead(op: nat, filename: Bytestring, mode: Bytestring)
      requires op < 0x1_0000 && Valid() && offset == 0
      requires 2 + |filename| + 1 + |mode| + 1 <= buf.Length
      modifies this`offset, buf
      ensures Valid() && offset == 2 + |filename| + 1 + |mode| + 1
      ensures Bytes() == Uint16Bytes(op) + filename + [0] + mode + [0] == Uint16Bytes(op) + Render([filename, mode])
    {
      RenderTwo(filename, mode);
      WriteUint16(op);
      hide Uint16Bytes, Render;
      WriteBytes(filename);
      WriteNull();
      WriteBytes(mode);
      WriteNull();
      assert Bytes() == Uint16Bytes(op) + (filename + [0] + mode + [0]);
    }

    /** `writeOptionAck`. */
    method WriteOptionAck(options: map<Bytestring, Bytestring>)
      modifies this, buf
      ensures Valid() && (buf == old(buf) || fresh(buf))
      ensures offset == 2 + OptionSpace(options) && Opcode(buf[..]) == OACK
      ensures exists ps :: Lists(ps, options) && Bytes() == [0, 6] + Render(Fields(ps))
      ensures NulFreeMap(options) ==>
                && (Validate(buf[..], offset) == Codec.Valid <==> options != map[])
                && (options != map[] ==> Codec.Options(buf[..], offset) == Ok(options))
    {
      var optLen := MeasureOptions(options);
      Reset(2 + optLen);
      WriteUint16(OACK);
      ghost var ps := WriteOptions(options);
      hide OptionSpace, Lists, Fields, Render, Validate, Codec.Options, NulFreeMap, Uint16Bytes, OackBytes, Opcode;
      assert Bytes() == buf[..][..offset];
      OackHeader(buf[..], offset, ps);
      if NulFreeMap(options) {
        OackRoundTrip(buf[..], offset, ps, options);
      }
    }

    /** `options`: the loop over keys and values, which panics on an unpaired key. */
    method Options() returns (r: Access<map<Bytestring, Bytestring>>)
      requires Valid() && buf.Length >= 2
      ensures r == Codec.Options(buf[..], offset)
    {
      hide Split, Opcode, Pairs;
      if offset < 3 {
        return Panic;
      }
      var optSlice := Split(buf[2..offset - 1]);
      assert buf[2..offset - 1] == buf[..][2..offset - 1];
      if Opcode(buf[..]) == RRQ || Opcode(buf[..]) == WRQ {
        if |optSlice| < 2 {
          return Panic;
        }
        optSlice := optSlice[2..];
      }
      r := PairUp(optSlice);
    }

    static method PairUp(fields: seq<Bytestring>) returns (r: Access<map<Bytestring, Bytestring>>)
      ensures r == if |fields| % 2 == 0 then Ok(Pairs(fields)) else Panic
    {
      var options: map<Bytestring, Bytestring> := map[];
      var i := 0;
      while i < |fields|
        invariant i % 2 == 0 && i <= |fields|
        invariant options == Pairs(fields[..i])
      {
        if i + 1 >= |fields| {
          return Panic;
        }
        assert fields[..i + 2][..i] == fields[..i];
        options := options[fields[i] := fields[i + 1]];
        i := i + 2;
      }
      assert fields[..i] == fields;
      r := Ok(options);
    }
  }

  lemma RenderTwo(k: Bytestring, v: Bytestring)
    ensures Render([k, v]) == k + [0] + v + [0]
  {
    assert [k, v][1..] == [v] && [v][1..] == [];
    assert Render([v]) == v + [0] + Render([]);
    assert k + [0] + (v + [0]) == k + [0] + v + [0];
  }

  lemma ListsExtend(ps: seq<(Bytestring, Bytestring)>, m: map<Bytestring, Bytestring>, k: Bytestring, v: Bytestring)
    requires Lists(ps, m) && k !in m
    ensures Lists(ps + [(k, v)], m[k := v])
    ensures Render(Fields(ps + [(k, v)])) == Render(Fields(ps)) + Render([k, v])
  {
    assert (ps + [(k, v)])[..|ps|] == ps;
    assert m[k := v] - {k} == m;
    RenderAppend(Fields(ps), [k, v]);
  }
}
