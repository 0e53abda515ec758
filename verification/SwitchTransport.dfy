/** Choosing between HTTP/1 and HTTP/2 by the client's first octets (section 3.5 of RFC 7540). */
module SwitchTransport {
  import opened Wrappers
  import opened Octets
  import H1 = Http1Reader
  import H2 = FrameReader
  import Delivery = Http1Delivery
  import opened Http2Transport
  import Http1Transport
  import Buffer = StreamBuf

  datatype Handlers = Handlers(http1: H1.Handlers, http2: H2.Handlers)

  // Octets that do not tell yet, or the transport that has them all.
  datatype Route = Undecided(octets: seq<byte>) | ToHttp2(reading: H2.Reading) | ToHttp1(state: H1.State)

  // What the transport chosen makes of all the octets.
  function Switched(hs: Handlers, s: seq<byte>): Route {
    if |s| < |CLIENT_PREFACE| && s == CLIENT_PREFACE[..|s|] then Undecided(s)
    else if CLIENT_PREFACE <= s then ToHttp2(H2.Pump(hs.http2, [], None, s[|CLIENT_PREFACE|..]))
    else ToHttp1(H1.Run(hs.http1, [], H1.Idle, s, false))
  }

  // Once there is a transport it gets every read.
  function Feed(hs: Handlers, r: Route, chunk: seq<byte>): Route {
    match r
    case Undecided(octets) => Switched(hs, octets + chunk)
    case ToHttp2(reading) => ToHttp2(H2.Feed(hs.http2, reading, chunk))
    case ToHttp1(state) => ToHttp1(H1.Feed(hs.http1, state, chunk))
  }

  function FeedAll(hs: Handlers, chunks: seq<seq<byte>>): Route {
    if chunks == [] then Undecided([]) else Feed(hs, FeedAll(hs, chunks[..|chunks| - 1]), chunks[|chunks| - 1])
  }

  /** The protocol depends on the octets alone, not on the reads: HTTP/2 if and only if they start with the preface. */
  lemma {:induction false} ProtocolIsChosen(hs: Handlers, chunks: seq<seq<byte>>)
    ensures var s, r := Concat(chunks), FeedAll(hs, chunks);
            && (r.ToHttp2? <==> CLIENT_PREFACE <= s)
            && (r.Undecided? <==> |s| < |CLIENT_PREFACE| && s == CLIENT_PREFACE[..|s|])
            && (r.Undecided? ==> r.octets == s)
  {
    hide H1.Run, H2.Pump, H1.Feed, H2.Feed;
    if chunks != [] {
      ProtocolIsChosen(hs, chunks[..|chunks| - 1]);
      PrefixGrows(Concat(chunks[..|chunks| - 1]), chunks[|chunks| - 1]);
    }
  }

  lemma PrefixGrows(a: seq<byte>, b: seq<byte>)
    ensures CLIENT_PREFACE <= a ==> CLIENT_PREFACE <= a + b
    ensures |a| >= |CLIENT_PREFACE| && CLIENT_PREFACE <= a + b ==> CLIENT_PREFACE <= a
    ensures |a| < |CLIENT_PREFACE| && CLIENT_PREFACE <= a + b ==> a == CLIENT_PREFACE[..|a|]
    ensures |a + b| < |CLIENT_PREFACE| && a + b == CLIENT_PREFACE[..|a + b|] ==> a == CLIENT_PREFACE[..|a|]
  {
    assert (a + b)[..|a|] == a;
  }

  // The transport chosen gets no octets that tell reads apart.
  predicate Plain(hs: Handlers, s: seq<byte>) {
    if CLIENT_PREFACE <= s then H2.NothingSwallowed(hs.http2, [], None, s[|CLIENT_PREFACE|..])
    else H1.NothingBehind(hs.http1, [], H1.Idle, s)
  }

  lemma SwitchInTwo(hs: Handlers, a: seq<byte>, b: seq<byte>)
    requires b != [] && Plain(hs, a + b)
    ensures Feed(hs, Switched(hs, a), b) == Switched(hs, a + b)
    ensures !Switched(hs, a).Undecided? ==> Plain(hs, a)
  {
    hide H1.Run, H2.Pump, H1.NothingBehind, H2.NothingSwallowed;
    PrefixGrows(a, b);
    if CLIENT_PREFACE <= a {
      var n := |CLIENT_PREFACE|;
      assert (a + b)[n..] == a[n..] + b;
      H2.PumpInTwo(hs.http2, [], None, a[n..], b);
    } else if Switched(hs, a).ToHttp1? {
      H1.RunInTwo(hs.http1, [], H1.Idle, a, b);
    }
  }

  /**
   * Whatever the reads, the connection ends up as if all octets had arrived at once, protocol and messages alike, as
   * long as the octets suit the transport that gets them.
   */
  lemma {:induction false} FeedIsSwitched(hs: Handlers, chunks: seq<seq<byte>>)
    requires H1.NoneEmpty(chunks) && Plain(hs, Concat(chunks))
    ensures FeedAll(hs, chunks) == Switched(hs, Concat(chunks))
    decreases |chunks|
  {
    hide Switched, Plain, Feed;
    if chunks != [] {
      var first, last := chunks[..|chunks| - 1], chunks[|chunks| - 1];
      var a := Concat(first);
      SwitchInTwo(hs, a, last);
      if Switched(hs, a).Undecided? {
        WaitingKeepsAll(hs, first);
      } else {
        FeedIsSwitched(hs, first);
      }
    } else {
      assert Switched(hs, []) == Undecided([]) by { NothingIsUndecided(hs); }
    }
  }

  lemma NothingIsUndecided(hs: Handlers)
    ensures Switched(hs, []) == Undecided([])
  {}

  lemma WaitingKeepsAll(hs: Handlers, chunks: seq<seq<byte>>)
    requires Switched(hs, Concat(chunks)).Undecided?
    ensures FeedAll(hs, chunks) == Switched(hs, Concat(chunks))
  {
    ProtocolIsChosen(hs, chunks);
  }

  ghost predicate ReadSizesDoNotMatter(hs: Handlers, s: seq<byte>) {
    forall chunks :: H1.NoneEmpty(chunks) && Concat(chunks) == s ==> FeedAll(hs, chunks) == Switched(hs, s)
  }

  lemma TwoReads(hs: Handlers, a: seq<byte>, b: seq<byte>)
    ensures Concat([a, b]) == a + b && FeedAll(hs, [a, b]) == Feed(hs, Switched(hs, a), b)
  {
    hide Switched;
    var both, first, none: seq<seq<byte>> := [a, b], [a], [];
    assert both[..1] == first && first[..0] == none;
    assert Concat(none) + a == a && Concat(first) == a by { assert Concat(none) == []; }
    assert FeedAll(hs, none) == Undecided([]) && [] + a == a;
    assert FeedAll(hs, first) == Switched(hs, a);
  }

  // The HTTP/2 transport can be told how the octets behind the preface were read.
  lemma TellingHttp2(hs: Handlers, s: seq<byte>) returns (a: seq<byte>, b: seq<byte>)
    requires !Plain(hs, s) && CLIENT_PREFACE <= s
    ensures s == a + b && a != [] && b != [] && Feed(hs, Switched(hs, a), b) != Switched(hs, s)
  {
    hide H2.Pump, H2.NothingSwallowed;
    var n := |CLIENT_PREFACE|;
    var k := H2.SplitBehindPing(hs.http2, [], None, s[n..]);
    a, b := s[..n + k], s[n + k..];
    assert CLIENT_PREFACE <= a && a[n..] == s[n..][..k];
  }

  // And so can the HTTP/1 transport, which is chosen by then: the preface has no colon.
  lemma TellingHttp1(hs: Handlers, s: seq<byte>) returns (a: seq<byte>, b: seq<byte>)
    requires !Plain(hs, s) && !(CLIENT_PREFACE <= s)
    ensures s == a + b && a != [] && b != [] && Feed(hs, Switched(hs, a), b) != Switched(hs, s)
  {
    hide H1.Run, H1.NothingBehind, H1.Feed;
    a, b := H1.TellingSplit(hs.http1, [], H1.Idle, s);
    PrefixGrows(a, b);
    if Switched(hs, a).Undecided? {
      H1.RunWithoutColon(hs.http1, [], H1.Idle, a);
      assert false;
    }
  }

  /** Nothing depends on the sizes of reads if and only if the octets suit the transport that gets them. */
  lemma ChunkIndependence(hs: Handlers, s: seq<byte>)
    ensures ReadSizesDoNotMatter(hs, s) <==> Plain(hs, s)
  {
    hide Switched, Plain, Feed, FeedAll;
    if Plain(hs, s) {
      forall chunks | H1.NoneEmpty(chunks) && Concat(chunks) == s ensures FeedAll(hs, chunks) == Switched(hs, s) {
        FeedIsSwitched(hs, chunks);
      }
    } else {
      var a, b;
      if CLIENT_PREFACE <= s { a, b := TellingHttp2(hs, s); } else { a, b := TellingHttp1(hs, s); }
      TwoReads(hs, a, b);
      assert H1.NoneEmpty([a, b]);
    }
  }

  // ---------------------------------------------------------------- what arrives

  /** Requests without bodies arrive over HTTP/1, in any reads: the switch keeps every octet for them. */
  lemma RequestsArrive(hs: Handlers, ms: seq<H1.Message>, chunks: seq<seq<byte>>)
    requires Delivery.Welcome(hs.http1, ms) && H1.NoneEmpty(chunks) && Concat(chunks) == Delivery.Stream(ms)
    requires forall m :: m in ms ==> m.body == []
    requires !(Delivery.Stream(ms) <= CLIENT_PREFACE) && !(CLIENT_PREFACE <= Delivery.Stream(ms))
    ensures FeedAll(hs, chunks) == ToHttp1(Delivery.Final(hs.http1, ms))
  {
    hide H1.Run, H1.NothingBehind, Delivery.Stream, Delivery.Final, Delivery.Welcome, FeedAll;
    var s := Delivery.Stream(ms);
    Delivery.StartsAtZero(ms);
    Delivery.RunToEnd(hs.http1, ms, 0);
    assert ms[..0] == [] && s[0..] == s;
    FeedIsSwitched(hs, chunks);
  }

  /** Behind the preface, in any reads, frames arrive over HTTP/2 as they would without a switch. */
  lemma FramesArrive(hs: Handlers, rest: seq<byte>, chunks: seq<seq<byte>>)
    requires H1.NoneEmpty(chunks) && Concat(chunks) == Ascii("PRI * HTTP/2.0\r\n\r\nSM\r\n\r\n") + rest
    requires H2.NothingSwallowed(hs.http2, [], None, rest)
    ensures FeedAll(hs, chunks) == ToHttp2(H2.Pump(hs.http2, [], None, rest))
  {
    hide Ascii, H2.Pump, H2.NothingSwallowed, FeedAll;
    PrefaceSpelled();
    assert (CLIENT_PREFACE + rest)[|CLIENT_PREFACE|..] == rest;
    FeedIsSwitched(hs, chunks);
  }

  // ---------------------------------------------------------------- the transport object

  // The transport that takes over, and what its first input made it throw.
  datatype Successor =
    | Same
    | Http2(http2: Http2Transport.ServerTransport, cause2: Option<H2.Cause>)
    | Http1(http1: Http1Transport.Transport, cause1: Option<H1.Cause>)

  class SwitchTransport {
    const handlers: Handlers

    constructor (handlers: Handlers)
      ensures this.handlers == handlers
    {
      this.handlers := handlers;
    }

    method OnInput(buf: Buffer.StreamBuf) returns (next: Successor)
      requires buf.Valid()
      modifies buf, buf.buf
      ensures buf.Valid() && buf.buf == old(buf.buf)
      ensures next.Same? ==> buf.Contents() == old(buf.Contents())
      ensures next.Http2? ==> fresh(next.http2)
      ensures next.Http1? ==> fresh(next.http1) && (next.cause1.None? ==> next.http1.Valid())
      ensures old(Switched(handlers, buf.Contents()))
              == match next
                 case Same => Undecided(buf.Contents())
                 case Http2(t, cause) => ToHttp2(t.State(cause, buf))
                 case Http1(t, cause) => ToHttp1(t.After(cause, buf.Contents()))
    {
      hide H1.Run, H2.Pump;
      var maybeHttp2, definitelyHttp2 := true, false;
      if buf.Size() < |CLIENT_PREFACE| {
        var front := buf.Front(buf.Size());
        assert front == buf.Contents();
        maybeHttp2 := front == CLIENT_PREFACE[..|front|];
        if maybeHttp2 {
          return Same;
        }
      } else {
        var front := buf.Front(|CLIENT_PREFACE|);
        definitelyHttp2 := front == CLIENT_PREFACE;
      }
      if definitelyHttp2 {
        var t := new Http2Transport.ServerTransport(handlers.http2);
        var cause := t.OnInput(buf);
        return Http2(t, cause);
      }
      var t := new Http1Transport.Transport(handlers.http1);
      var cause := t.OnInput(buf);
      return Http1(t, cause);
    }
  }
}
