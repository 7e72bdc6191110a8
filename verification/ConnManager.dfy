/** The event loop of the server: new requests open connections, packets of known peers go to
    their connection's channel, finished connections are forgotten. */
module ConnManager {
  import opened Bytes
  import Codec

  type Addr = string

  /** What the loop selects: a datagram of at least two bytes, or the message that the connection of
      an address is done. */
  datatype Event = Datagram(addr: Addr, pkt: seq<byte>) | Done(addr: Addr) {
    predicate Valid() {
      Datagram? ==> |pkt| >= 2
    }

    /** The second byte of an RRQ or WRQ opcode. */
    predicate Request()
      requires Valid()
    {
      Datagram? && (pkt[1] == 1 || pkt[1] == 2)
    }

    predicate Other()
      requires Valid()
    {
      Datagram? && !Request()
    }
  }

  /** `chans[c]` is what has been put on the channel of the `c`-th connection, `errors` the
      addresses that were sent an Unknown TID error, in order. */
  datatype State = State(reqMap: map<Addr, nat>, chans: seq<seq<seq<byte>>>, errors: seq<Addr>)

  ghost predicate AllValid(h: seq<Event>) {
    forall i :: 0 <= i < |h| ==> h[i].Valid()
  }

  class Manager {
    const singlePort: bool
    var reqMap: map<Addr, nat>
    var chans: seq<seq<seq<byte>>>
    var errors: seq<Addr>

    ghost function View(): State
      reads this
    {
      State(reqMap, chans, errors)
    }

    ghost predicate Valid()
      reads this
    {
      forall a :: a in reqMap ==> reqMap[a] < |chans|
    }

    constructor (singlePort: bool)
      ensures Valid() && View() == State(map[], [], []) && this.singlePort == singlePort
    {
      this.singlePort, reqMap, chans, errors := singlePort, map[], [], [];
    }

    /** One turn of the select loop. */
    method Handle(e: Event)
      requires Valid() && e.Valid()
      modifies this
      ensures Valid() && View() == After(old(View()), singlePort, e)
    {
      match e
      case Datagram(addr, pkt) =>
        if pkt[1] == 1 || pkt[1] == 2 {
          if singlePort {
            reqMap := reqMap[addr := |chans|];
            chans := chans + [[]];
          }
        } else if singlePort && addr in reqMap {
          var c := reqMap[addr];
          chans := chans[c := chans[c] + [pkt]];
        } else {
          errors := errors + [addr];
        }
      case Done(addr) =>
        reqMap := reqMap - {addr};
    }

    /** The loop, over the events that arrive before the server is closed. */
    method Serve(events: seq<Event>)
      requires Valid() && View() == State(map[], [], []) && AllValid(events)
      modifies this
      ensures Valid() && View() == Run(singlePort, events)
    {
      for i := 0 to |events|
        invariant Valid() && View() == Run(singlePort, events[..i])
      {
        assert events[..i + 1][..i] == events[..i];
        Handle(events[i]);
      }
      assert events[..|events|] == events;
    }
  }

  function After(s: State, singlePort: bool, e: Event): State
    requires e.Valid() && forall a :: a in s.reqMap ==> s.reqMap[a] < |s.chans|
  {
    match e
    case Done(addr) => s.(reqMap := s.reqMap - {addr})
    case Datagram(addr, pkt) =>
      if e.Request() then
        if singlePort then s.(reqMap := s.reqMap[addr := |s.chans|], chans := s.chans + [[]]) else s
      else if singlePort && addr in s.reqMap then
        s.(chans := s.chans[s.reqMap[addr] := s.chans[s.reqMap[addr]] + [pkt]])
      else s.(errors := s.errors + [addr])
  }

  function Run(singlePort: bool, h: seq<Event>): (s: State)
    requires AllValid(h)
    ensures forall a :: a in s.reqMap ==> s.reqMap[a] < |s.chans|
  {
    if h == [] then State(map[], [], [])
    else After(Run(singlePort, h[..|h| - 1]), singlePort, h[|h| - 1])
  }

  /** For every datagram that the codec accepts, the loop takes exactly RRQ and WRQ for requests. It looks
      at one byte only, so for any other datagram the first one does not matter. */
  lemma {:induction false} RequestIsOpcode(addr: Addr, pkt: seq<byte>, first: byte)
    requires |pkt| >= 2
    ensures Codec.Validate(pkt, |pkt|) == Codec.Valid ==>
              (Datagram(addr, pkt).Request() <==> Codec.Opcode(pkt) == Codec.RRQ || Codec.Opcode(pkt) == Codec.WRQ)
    ensures Datagram(addr, pkt).Request() <==> Datagram(addr, [first] + pkt[1..]).Request()
    ensures Datagram(addr, pkt).Request() <==> pkt[1..2] == [1] || pkt[1..2] == [2]
  {
    Codec.ValidByOpcode(pkt, |pkt|);
  }

  /** In single-port mode a read or write request, encoded with any names, always opens a new and empty
      channel for its address, also in place of an older one, and disturbs no other connection. */
  lemma {:induction false} RequestOpens(s: State, addr: Addr, write: bool, rest: seq<byte>)
    requires forall a :: a in s.reqMap ==> s.reqMap[a] < |s.chans|
    ensures var s' := After(s, true, Datagram(addr, [0, if write then 2 else 1] + rest));
      && addr in s'.reqMap && s'.reqMap[addr] == |s.chans| && s'.chans == s.chans + [[]] && s'.errors == s.errors
      && forall a :: a != addr ==> (a in s'.reqMap <==> a in s.reqMap) && (a in s.reqMap ==> s'.reqMap[a] == s.reqMap[a])
  {
    var pkt := [0, if write then 2 else 1] + rest;
    assert pkt[1] == if write then 2 else 1;
  }

  /** A datagram of any other opcode opens nothing: it goes to the channel of its address, or gets an
      error where there is none. */
  lemma {:induction false} OthersRouted(s: State, addr: Addr, op: byte, rest: seq<byte>)
    requires forall a :: a in s.reqMap ==> s.reqMap[a] < |s.chans|
    requires op != 1 && op != 2
    ensures var pkt := [0, op] + rest; var s' := After(s, true, Datagram(addr, pkt));
      && s'.reqMap == s.reqMap && |s'.chans| == |s.chans|
      && (addr in s.reqMap ==> s'.chans[s.reqMap[addr]] == s.chans[s.reqMap[addr]] + [pkt] && s'.errors == s.errors)
      && (addr !in s.reqMap ==> s'.chans == s.chans && s'.errors == s.errors + [addr])
  {
    var pkt := [0, op] + rest;
    assert pkt[1] == op;
  }

  // What a connection should get, read off the history alone.

  /** The event opens a connection for `a` or reports that its connection is done. */
  predicate Ends(e: Event, a: Addr)
    requires e.Valid()
  {
    e.addr == a && (e.Done? || e.Request())
  }

  predicate Ended(h: seq<Event>, a: Addr)
    requires AllValid(h)
  {
    exists i :: 0 <= i < |h| && Ends(h[i], a)
  }

  /** The packets of `a`, in order, up to the next request or done message of `a`. */
  function Collect(h: seq<Event>, a: Addr): seq<seq<byte>>
    requires AllValid(h)
  {
    if h == [] then []
    else
      var init, e := h[..|h| - 1], h[|h| - 1];
      Collect(init, a) + if e.Other() && e.addr == a && !Ended(init, a) then [e.pkt] else []
  }

  /** The positions of the requests in the history, in order. */
  function Requests(h: seq<Event>): (r: seq<nat>)
    requires AllValid(h)
    ensures forall c :: 0 <= c < |r| ==> r[c] < |h| && h[r[c]].Request()
  {
    if h == [] then []
    else Requests(h[..|h| - 1]) + if h[|h| - 1].Request() then [|h| - 1] else []
  }

  /** The last request or done message of `a` before position `j` was a request. */
  ghost predicate Connected(h: seq<Event>, a: Addr, j: nat)
    requires AllValid(h) && j <= |h|
  {
    exists i :: 0 <= i < j && h[i].Request() && h[i].addr == a && !Ended(h[i + 1..j], a)
  }

  /** The senders, in order, of the packets that belong to no connection. */
  ghost function Strays(singlePort: bool, h: seq<Event>): seq<Addr>
    requires AllValid(h)
  {
    if h == [] then []
    else
      var n := |h| - 1;
      Strays(singlePort, h[..n]) +
      if h[n].Other() && !(singlePort && Connected(h, h[n].addr, n)) then [h[n].addr] else []
  }

  // Routing.

  /** The address that opened connection `c`. */
  function Owner(h: seq<Event>, c: nat): Addr
    requires AllValid(h) && c < |Requests(h)|
  {
    h[Requests(h)[c]].addr
  }

  /** The events since connection `c` was opened. */
  function Since(h: seq<Event>, c: nat): (t: seq<Event>)
    requires AllValid(h) && c < |Requests(h)|
    ensures AllValid(t)
  {
    h[Requests(h)[c] + 1..]
  }

  predicate Open(h: seq<Event>, c: nat)
    requires AllValid(h) && c < |Requests(h)|
  {
    !Ended(Since(h, c), Owner(h, c))
  }

  /** The map holds exactly the connections that are open, each under its own address. */
  ghost predicate MapOk(s: State, h: seq<Event>)
    requires AllValid(h)
  {
    && |s.chans| == |Requests(h)|
    && (forall a :: a in s.reqMap ==>
          s.reqMap[a] < |Requests(h)| && Owner(h, s.reqMap[a]) == a && Open(h, s.reqMap[a]))
    && (forall c :: 0 <= c < |Requests(h)| && Open(h, c) ==>
          Owner(h, c) in s.reqMap && s.reqMap[Owner(h, c)] == c)
  }

  /** Every channel holds what its connection should have got. */
  ghost predicate ChansOk(s: State, h: seq<Event>)
    requires AllValid(h)
  {
    && |s.chans| == |Requests(h)|
    && forall c :: 0 <= c < |Requests(h)| ==> s.chans[c] == Collect(Since(h, c), Owner(h, c))
  }

  lemma {:induction false} AppendOne(x: seq<Event>, e: Event, a: Addr)
    requires AllValid(x) && e.Valid()
    ensures AllValid(x + [e])
    ensures Ended(x + [e], a) <==> Ended(x, a) || Ends(e, a)
    ensures Collect(x + [e], a)
         == Collect(x, a) + if e.Other() && e.addr == a && !Ended(x, a) then [e.pkt] else []
  {
    var y := x + [e];
    assert y[..|y| - 1] == x;
    if Ended(x, a) {
      var i :| 0 <= i < |x| && Ends(x[i], a);
      assert Ends(y[i], a);
    }
    if Ends(e, a) {
      assert Ends(y[|x|], a);
    }
  }

  /** What a new event means for an older connection. */
  lemma {:induction false} OlderConnection(g: seq<Event>, e: Event, c: nat)
    requires AllValid(g) && e.Valid() && c < |Requests(g)|
    ensures AllValid(g + [e]) && c < |Requests(g + [e])|
    ensures Owner(g + [e], c) == Owner(g, c)
    ensures Open(g + [e], c) <==> Open(g, c) && !Ends(e, Owner(g, c))
    ensures Collect(Since(g + [e], c), Owner(g, c)) == Collect(Since(g, c), Owner(g, c))
              + if e.Other() && e.addr == Owner(g, c) && Open(g, c) then [e.pkt] else []
  {
    var h := g + [e];
    assert h[..|g|] == g;
    assert Since(h, c) == Since(g, c) + [e];
    AppendOne(Since(g, c), e, Owner(g, c));
  }

  /** A request opens one more connection, which has got nothing yet. */
  lemma {:induction false} NewConnection(g: seq<Event>, e: Event)
    requires AllValid(g) && e.Valid()
    ensures AllValid(g + [e])
    ensures |Requests(g + [e])| == |Requests(g)| + if e.Request() then 1 else 0
    ensures e.Request() ==>
      var c := |Requests(g)|;
      Owner(g + [e], c) == e.addr && Open(g + [e], c) && Collect(Since(g + [e], c), e.addr) == []
  {
    var h := g + [e];
    assert h[..|g|] == g;
    if e.Request() {
      assert Since(h, |Requests(g)|) == [];
    }
  }

  /** Every request is listed. */
  lemma {:induction false} Listed(h: seq<Event>, i: nat) returns (c: nat)
    requires AllValid(h) && i < |h| && h[i].Request()
    ensures c < |Requests(h)| && Requests(h)[c] == i
  {
    if i == |h| - 1 {
      c := |Requests(h)| - 1;
    } else {
      c := Listed(h[..|h| - 1], i);
    }
  }

  /** An address has an entry in the map exactly when it is connected. */
  lemma {:induction false} MapMeansConnected(s: State, h: seq<Event>, a: Addr)
    requires AllValid(h) && MapOk(s, h)
    ensures a in s.reqMap <==> Connected(h, a, |h|)
  {
    if a in s.reqMap {
      var i := Requests(h)[s.reqMap[a]];
      assert h[i + 1..|h|] == Since(h, s.reqMap[a]);
      assert h[i].Request() && h[i].addr == a && !Ended(h[i + 1..|h|], a);
    }
    if Connected(h, a, |h|) {
      var i :| 0 <= i < |h| && h[i].Request() && h[i].addr == a && !Ended(h[i + 1..|h|], a);
      var c := Listed(h, i);
      assert h[i + 1..|h|] == Since(h, c);
      assert Owner(h, c) == a && Open(h, c);
    }
  }

  lemma {:induction false} MapStep(s: State, g: seq<Event>, e: Event)
    requires AllValid(g) && e.Valid() && MapOk(s, g)
    requires forall a :: a in s.reqMap ==> s.reqMap[a] < |s.chans|
    ensures AllValid(g + [e]) && MapOk(After(s, true, e), g + [e])
  {
    hide Open, Owner, Since, Requests, Collect;
    NewConnection(g, e);
    forall c | 0 <= c < |Requests(g)|
      ensures Owner(g + [e], c) == Owner(g, c)
      ensures Open(g + [e], c) <==> Open(g, c) && !Ends(e, Owner(g, c))
    {
      OlderConnection(g, e, c);
    }
  }

  lemma {:induction false} ChanStep(s: State, g: seq<Event>, e: Event)
    requires AllValid(g) && e.Valid() && MapOk(s, g) && ChansOk(s, g)
    requires forall a :: a in s.reqMap ==> s.reqMap[a] < |s.chans|
    ensures AllValid(g + [e]) && ChansOk(After(s, true, e), g + [e])
  {
    hide Open, Owner, Since, Requests, Collect;
    var h, s' := g + [e], After(s, true, e);
    NewConnection(g, e);
    forall c | 0 <= c < |Requests(h)| ensures s'.chans[c] == Collect(Since(h, c), Owner(h, c)) {
      if c < |Requests(g)| {
        OlderConnection(g, e, c);
      }
    }
  }

  lemma {:induction false} StrayStep(s: State, g: seq<Event>, e: Event)
    requires AllValid(g) && e.Valid() && MapOk(s, g) && s.errors == Strays(true, g)
    requires forall a :: a in s.reqMap ==> s.reqMap[a] < |s.chans|
    ensures AllValid(g + [e]) && After(s, true, e).errors == Strays(true, g + [e])
  {
    var h := g + [e];
    assert h[..|g|] == g;
    MapMeansConnected(s, g, e.addr);
    ConnectedPrefix(g, e, e.addr);
  }

  lemma {:induction false} ConnectedPrefix(g: seq<Event>, e: Event, a: Addr)
    requires AllValid(g) && AllValid(g + [e])
    ensures Connected(g + [e], a, |g|) <==> Connected(g, a, |g|)
  {
    var h := g + [e];
    forall i | 0 <= i < |g| ensures h[i] == g[i] && h[i + 1..|g|] == g[i + 1..|g|] {}
  }

  /** Single-port routing, for every interleaving of requests, packets and done messages: the
      channel of each connection holds exactly, in order, the packets of its own address between
      its request and the next request or done message of that address; the sender of every other
      packet gets one error; and the map holds exactly the open connections. */
  lemma {:induction false} Routing(h: seq<Event>)
    requires AllValid(h)
    ensures var s := Run(true, h); MapOk(s, h) && ChansOk(s, h) && s.errors == Strays(true, h)
  {
    if h != [] {
      var g, e := h[..|h| - 1], h[|h| - 1];
      assert h == g + [e];
      Routing(g);
      MapStep(Run(true, g), g, e);
      ChanStep(Run(true, g), g, e);
      StrayStep(Run(true, g), g, e);
    }
  }

  /** Without single-port mode the loop routes nothing: no channel exists and every packet that is
      not a request is answered by an error. */
  lemma {:induction false} NoRouting(h: seq<Event>)
    requires AllValid(h)
    ensures var s := Run(false, h); s.reqMap == map[] && s.chans == [] && s.errors == Strays(false, h)
  {
    if h != [] {
      NoRouting(h[..|h| - 1]);
    }
  }
}
