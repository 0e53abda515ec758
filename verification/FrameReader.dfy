/**
 * Reading HTTP/2 frames from a stream of octets (sections 3.5 and 4.1 of RFC 7540): what the receive loop makes of the
 * octets it has, as a function, and how that depends on the sizes of the reads that bring them.
 */
module FrameReader {
  import opened Wrappers
  import opened Octets
  import opened Http2Wire

  const DATA: byte := 0
  const HEADERS: byte := 1
  const RST_STREAM: byte := 3
  const SETTINGS_TYPE: byte := 4
  const PING: byte := 6
  const WINDOW_UPDATE: byte := 8

  datatype Frame = Frame(header: FrameHeader, payload: seq<byte>)
  {
    function Octets(): seq<byte> {
      header.Wire() + payload
    }

    predicate PingRequest() {
      header.frameType == PING && header.flags % 2 == 0
    }
  }

  // Why the connection ended: a preface that is none, a frame whose handler threw, or a buffer advanced past its end.
  datatype Cause = InvalidPreface | Rejected(frame: Frame) | Overrun

  // What is platform or application: the sign of `char`, and for which header blocks and window updates the handlers
  // throw, after the frames handled so far.
  datatype Handlers = Handlers(signed: bool, throws: (seq<Frame>, Frame) -> bool)
  {
    predicate Rejects(log: seq<Frame>, f: Frame) {
      var h := f.header;
      if h.frameType == DATA then true // no stream ever becomes open
      else if h.frameType == RST_STREAM then h.length != 4 || h.streamId == 0
      else if h.frameType == SETTINGS_TYPE then h.flags % 2 == 0 && h.length % 6 != 0
      else if h.frameType == PING then h.flags % 2 == 0 && (h.streamId != 0 || h.length != 8)
      else if h.frameType == WINDOW_UPDATE then h.length != 4 || throws(log, f)
      else h.frameType == HEADERS && throws(log, f) // others are ignored
    }
  }

  // The frames handled, a header whose payload has not arrived, and the octets still in the buffer.
  datatype Reading =
    | Alive(log: seq<Frame>, pending: Option<FrameHeader>, rest: seq<byte>)
    | Dead(log: seq<Frame>, cause: Cause)

  // The receive loop. The handler of a ping request takes the payload off the buffer, and then it is taken off again.
  function Pump(hs: Handlers, log: seq<Frame>, pending: Option<FrameHeader>, s: seq<byte>): (r: Reading)
    decreases |s|, if pending.Some? then 1 else 0
  {
    if pending.None? then
      if |s| < FRAME_HEADER_SIZE then Alive(log, None, s)
      else Pump(hs, log, Some(HeaderFromOctets(s[..FRAME_HEADER_SIZE], hs.signed)), s[FRAME_HEADER_SIZE..])
    else
      var h := pending.value;
      if |s| < h.length then Alive(log, pending, s)
      else
        var f := Frame(h, s[..h.length]);
        if hs.Rejects(log, f) then Dead(log, Rejected(f))
        else if !f.PingRequest() then Pump(hs, log + [f], None, s[h.length..])
        else if |s| < 16 then Dead(log + [f], Overrun)
        else Pump(hs, log + [f], None, s[16..])
  }

  // Every frame takes the nine octets of its header and the octets of its payload.
  function Standard(hs: Handlers, log: seq<Frame>, pending: Option<FrameHeader>, s: seq<byte>): (r: Reading)
    decreases |s|, if pending.Some? then 1 else 0
  {
    if pending.None? then
      if |s| < FRAME_HEADER_SIZE then Alive(log, None, s)
      else Standard(hs, log, Some(HeaderFromOctets(s[..FRAME_HEADER_SIZE], hs.signed)), s[FRAME_HEADER_SIZE..])
    else
      var h := pending.value;
      if |s| < h.length then Alive(log, pending, s)
      else
        var f := Frame(h, s[..h.length]);
        if hs.Rejects(log, f) then Dead(log, Rejected(f))
        else Standard(hs, log + [f], None, s[h.length..])
  }

  // ---------------------------------------------------------------- frames as they are written

  // A frame with a payload of its length, and a header that is read as it is written.
  predicate Written(hs: Handlers, f: Frame) {
    f.header.Fits() && |f.payload| == f.header.length && (!hs.signed || f.header.SignSafeHeader())
  }

  // The frame, with anything behind it, ends the connection ...
  predicate Ends(hs: Handlers, log: seq<Frame>, f: Frame, tail: seq<byte>) {
    Pump(hs, log, None, f.Octets() + tail) == Dead(log, Rejected(f))
  }

  // ... or is handled, and reading goes on behind it.
  predicate GoesOn(hs: Handlers, log: seq<Frame>, f: Frame, tail: seq<byte>) {
    Pump(hs, log, None, f.Octets() + tail) == Pump(hs, log + [f], None, tail)
  }

  lemma FrameIsRead(hs: Handlers, log: seq<Frame>, f: Frame, tail: seq<byte>)
    requires Written(hs, f)
    ensures Pump(hs, log, None, f.Octets() + tail) == Pump(hs, log, Some(f.header), f.payload + tail)
    ensures |f.payload| == f.header.length
    ensures (f.payload + tail)[..f.header.length] == f.payload && (f.payload + tail)[f.header.length..] == tail
  {
    hide HeaderFromOctets, FrameHeader.Wire, FrameHeader.SignSafeHeader;
    FrameHeaderRoundTrip(f.header, hs.signed);
    Parts(f.header.Wire(), f.payload, tail);
  }

  lemma Parts(a: seq<byte>, b: seq<byte>, c: seq<byte>)
    ensures (a + b + c)[..|a|] == a && (a + b + c)[|a|..] == b + c
    ensures (b + c)[..|b|] == b && (b + c)[|b|..] == c
  {}

  lemma EndsOrGoesOn(hs: Handlers, log: seq<Frame>, f: Frame, tail: seq<byte>)
    requires Written(hs, f)
    ensures hs.Rejects(log, f) ==> Ends(hs, log, f, tail)
    ensures !hs.Rejects(log, f) && !f.PingRequest() ==> GoesOn(hs, log, f, tail) && !Ends(hs, log, f, tail)
  {
    hide HeaderFromOctets, FrameHeader.Wire, Written, Handlers.Rejects;
    FrameIsRead(hs, log, f, tail);
    if !hs.Rejects(log, f) && !f.PingRequest() {
      PumpKeepsLog(hs, log + [f], None, tail);
    }
  }

  /** DATA always ends the connection: no stream is ever open. */
  lemma DataEnds(hs: Handlers, log: seq<Frame>, f: Frame, tail: seq<byte>)
    requires Written(hs, f) && f.header.frameType == 0
    ensures Ends(hs, log, f, tail)
  {
    EndsOrGoesOn(hs, log, f, tail);
  }

  /** HEADERS is handled if and only if the application takes it. */
  lemma HeadersGoOn(hs: Handlers, log: seq<Frame>, f: Frame, tail: seq<byte>)
    requires Written(hs, f) && f.header.frameType == 1
    ensures if hs.throws(log, f) then Ends(hs, log, f, tail) else GoesOn(hs, log, f, tail)
  {
    hide Pump, Written, FrameHeader.Wire;
    EndsOrGoesOn(hs, log, f, tail);
  }

  /** RST_STREAM is handled if and only if it has four octets and a stream. */
  lemma ResetGoesOn(hs: Handlers, log: seq<Frame>, f: Frame, tail: seq<byte>)
    requires Written(hs, f) && f.header.frameType == 3
    ensures if |f.payload| == 4 && f.header.streamId > 0 then GoesOn(hs, log, f, tail) else Ends(hs, log, f, tail)
  {
    hide Pump, FrameHeader.Wire, FrameHeader.SignSafeHeader;
    EndsOrGoesOn(hs, log, f, tail);
  }

  /** SETTINGS that is no acknowledgement ends the connection if and only if there are no settings to be made of it. */
  lemma SettingsGoOn(hs: Handlers, log: seq<Frame>, f: Frame, tail: seq<byte>)
    requires Written(hs, f) && f.header.frameType == 4 && f.header.flags % 2 == 0
    ensures if SettingsOf(f.payload, hs.signed).Some? then GoesOn(hs, log, f, tail) else Ends(hs, log, f, tail)
  {
    hide Pump, FrameHeader.Wire, FrameHeader.SignSafeHeader, LastValue;
    EndsOrGoesOn(hs, log, f, tail);
  }

  /** So what a peer writes for its settings is always handled. */
  lemma WrittenSettingsGoOn(hs: Handlers, log: seq<Frame>, f: Frame, values: seq<nat>, tail: seq<byte>)
    requires Written(hs, f) && f.header.frameType == 4 && |values| == SETTINGS && f.payload == SettingsWire(values, 6)
    ensures GoesOn(hs, log, f, tail)
  {
    hide Pump, FrameHeader.Wire, FrameHeader.SignSafeHeader, LastValue;
    if f.header.flags % 2 == 0 { SettingsGoOn(hs, log, f, tail); } else { AcknowledgementsGoOn(hs, log, f, tail); }
  }

  /** Acknowledgements of settings and pings are always handled. */
  lemma AcknowledgementsGoOn(hs: Handlers, log: seq<Frame>, f: Frame, tail: seq<byte>)
    requires Written(hs, f) && (f.header.frameType == 4 || f.header.frameType == 6) && f.header.flags % 2 == 1
    ensures GoesOn(hs, log, f, tail)
  {
    hide Pump, Written, FrameHeader.Wire;
    EndsOrGoesOn(hs, log, f, tail);
  }

  /** A ping request ends the connection if it has a stream or not eight octets; else it swallows eight octets more. */
  lemma PingEndsOrSwallows(hs: Handlers, log: seq<Frame>, f: Frame, tail: seq<byte>)
    requires Written(hs, f) && f.header.frameType == 6 && f.header.flags % 2 == 0
    ensures if f.header.streamId > 0 || |f.payload| != 8 then Ends(hs, log, f, tail)
            else Pump(hs, log, None, f.Octets() + tail)
                 == if |tail| < 8 then Dead(log + [f], Overrun) else Pump(hs, log + [f], None, tail[8..])
  {
    hide HeaderFromOctets, FrameHeader.Wire, FrameHeader.SignSafeHeader;
    EndsOrGoesOn(hs, log, f, tail);
    FrameIsRead(hs, log, f, tail);
    var s := f.payload + tail;
    if |f.payload| == 8 && |tail| >= 8 { assert s[16..] == tail[8..]; }
  }

  /** WINDOW_UPDATE is handled if and only if it has four octets and the application takes it. */
  lemma WindowUpdateGoesOn(hs: Handlers, log: seq<Frame>, f: Frame, tail: seq<byte>)
    requires Written(hs, f) && f.header.frameType == 8
    ensures if |f.payload| == 4 && !hs.throws(log, f) then GoesOn(hs, log, f, tail) else Ends(hs, log, f, tail)
  {
    hide Pump, FrameHeader.Wire, FrameHeader.SignSafeHeader;
    EndsOrGoesOn(hs, log, f, tail);
  }

  /** Frames of all other types are handled, whatever is in them. */
  lemma OthersGoOn(hs: Handlers, log: seq<Frame>, f: Frame, tail: seq<byte>)
    requires Written(hs, f) && f.header.frameType !in {0, 1, 3, 4, 6, 8}
    ensures GoesOn(hs, log, f, tail)
  {
    hide Pump, Written, FrameHeader.Wire;
    EndsOrGoesOn(hs, log, f, tail);
  }

  // ---------------------------------------------------------------- reads of any size

  // A read appends to the octets left over. Nothing revives a connection that has ended.
  function Feed(hs: Handlers, r: Reading, read: seq<byte>): Reading {
    if r.Dead? then r else Pump(hs, r.log, r.pending, r.rest + read)
  }

  function FeedAll(hs: Handlers, r: Reading, chunks: seq<seq<byte>>): Reading {
    if chunks == [] then r else Feed(hs, FeedAll(hs, r, chunks[..|chunks| - 1]), chunks[|chunks| - 1])
  }

  // No ping request has eight octets or more behind its payload, ready to be lost.
  predicate NothingSwallowed(hs: Handlers, log: seq<Frame>, pending: Option<FrameHeader>, s: seq<byte>)
    decreases |s|, if pending.Some? then 1 else 0
  {
    if pending.None? then
      |s| < FRAME_HEADER_SIZE
      || NothingSwallowed(hs, log, Some(HeaderFromOctets(s[..FRAME_HEADER_SIZE], hs.signed)), s[FRAME_HEADER_SIZE..])
    else
      var h := pending.value;
      |s| < h.length ||
      var f := Frame(h, s[..h.length]);
      hs.Rejects(log, f)
      || (if f.PingRequest() then |s| < 16 else NothingSwallowed(hs, log + [f], None, s[h.length..]))
  }

  // What is true of an octet string and of whatever a reader has got from the front of it.
  lemma {:induction false} PumpInTwo(hs: Handlers, log: seq<Frame>, pending: Option<FrameHeader>, a: seq<byte>,
                                     b: seq<byte>)
    requires NothingSwallowed(hs, log, pending, a + b)
    ensures NothingSwallowed(hs, log, pending, a)
    ensures Feed(hs, Pump(hs, log, pending, a), b) == Pump(hs, log, pending, a + b)
    decreases |a|, if pending.Some? then 1 else 0
  {
    var n := if pending.None? then FRAME_HEADER_SIZE else pending.value.length;
    if |a| >= n {
      assert (a + b)[..n] == a[..n] && (a + b)[n..] == a[n..] + b;
      if pending.None? {
        PumpInTwo(hs, log, Some(HeaderFromOctets(a[..n], hs.signed)), a[n..], b);
      } else {
        var f := Frame(pending.value, a[..n]);
        if !hs.Rejects(log, f) && !f.PingRequest() {
          PumpInTwo(hs, log + [f], None, a[n..], b);
        }
      }
    }
  }

  lemma {:induction false} FeedIsPump(hs: Handlers, chunks: seq<seq<byte>>)
    requires NothingSwallowed(hs, [], None, Concat(chunks))
    ensures FeedAll(hs, Alive([], None, []), chunks) == Pump(hs, [], None, Concat(chunks))
  {
    if chunks != [] {
      var a, b := Concat(chunks[..|chunks| - 1]), chunks[|chunks| - 1];
      PumpInTwo(hs, [], None, a, b);
      FeedIsPump(hs, chunks[..|chunks| - 1]);
    }
  }

  // Octets leave a trace: a frame handled, a header pending, or nothing has been read.
  lemma {:induction false} PumpKeepsLog(hs: Handlers, log: seq<Frame>, pending: Option<FrameHeader>, s: seq<byte>)
    ensures var r := Pump(hs, log, pending, s);
            && |log| <= |r.log|
            && (r.Alive? && |r.log| == |log| && r.pending.None? ==> pending.None? && r.rest == s)
    decreases |s|, if pending.Some? then 1 else 0
  {
    hide HeaderFromOctets;
    var n := if pending.None? then FRAME_HEADER_SIZE else pending.value.length;
    if |s| >= n {
      if pending.None? {
        PumpKeepsLog(hs, log, Some(HeaderFromOctets(s[..n], hs.signed)), s[n..]);
      } else {
        var f := Frame(pending.value, s[..n]);
        if !hs.Rejects(log, f) && (!f.PingRequest() || |s| >= 16) {
          PumpKeepsLog(hs, log + [f], None, if f.PingRequest() then s[16..] else s[n..]);
        }
      }
    }
  }

  lemma {:induction false} OverrunLogsThePing(hs: Handlers, log: seq<Frame>, pending: Option<FrameHeader>, s: seq<byte>)
    ensures var r := Pump(hs, log, pending, s); r.Dead? && r.cause.Overrun? ==> |r.log| > |log|
    decreases |s|, if pending.Some? then 1 else 0
  {
    var n := if pending.None? then FRAME_HEADER_SIZE else pending.value.length;
    if |s| >= n {
      if pending.None? {
        OverrunLogsThePing(hs, log, Some(HeaderFromOctets(s[..n], hs.signed)), s[n..]);
      } else {
        var f := Frame(pending.value, s[..n]);
        if !hs.Rejects(log, f) && (!f.PingRequest() || |s| >= 16) {
          OverrunLogsThePing(hs, log + [f], None, if f.PingRequest() then s[16..] else s[n..]);
        }
      }
    }
  }

  /** A read that ends with the payload of a ping request ends the connection; a longer one goes on. */
  lemma {:induction false} SplitBehindPing(hs: Handlers, log: seq<Frame>, pending: Option<FrameHeader>, s: seq<byte>)
    returns (k: nat)
    requires !NothingSwallowed(hs, log, pending, s)
    ensures k < |s|
    ensures Pump(hs, log, pending, s[..k]).Dead?
    ensures Pump(hs, log, pending, s[..k]) != Pump(hs, log, pending, s)
    decreases |s|, if pending.Some? then 1 else 0
  {
    var n := if pending.None? then FRAME_HEADER_SIZE else pending.value.length;
    if pending.None? {
      k := SplitBehindPing(hs, log, Some(HeaderFromOctets(s[..n], hs.signed)), s[n..]);
    } else {
      var f := Frame(pending.value, s[..n]);
      if f.PingRequest() {
        OverrunLogsThePing(hs, log + [f], None, s[16..]);
        assert s[..n][..n] == s[..n];
        return n;
      }
      k := SplitBehindPing(hs, log + [f], None, s[n..]);
    }
    k := n + k;
    assert s[..k][..n] == s[..n] && s[..k][n..] == s[n..][..k - n];
  }

  ghost predicate ReadSizesDoNotMatter(hs: Handlers, s: seq<byte>) {
    forall chunks :: Concat(chunks) == s ==> FeedAll(hs, Alive([], None, []), chunks) == Pump(hs, [], None, s)
  }

  /** Frames are the same however the octets arrive if and only if no ping request has eight octets behind it. */
  lemma ChunkIndependence(hs: Handlers, s: seq<byte>)
    ensures ReadSizesDoNotMatter(hs, s) <==> NothingSwallowed(hs, [], None, s)
  {
    hide Pump, NothingSwallowed;
    if NothingSwallowed(hs, [], None, s) {
      forall chunks | Concat(chunks) == s
        ensures FeedAll(hs, Alive([], None, []), chunks) == Pump(hs, [], None, s)
      {
        FeedIsPump(hs, chunks);
      }
    } else {
      var k := SplitBehindPing(hs, [], None, s);
      var chunks := [s[..k], s[k..]];
      var first, none: seq<seq<byte>> := chunks[..1], [];
      assert first == [s[..k]] && first[..0] == none;
      assert Concat(first) == s[..k] by { assert Concat(none) == []; }
      assert Concat(chunks) == s;
      assert [] + s[..k] == s[..k];
      assert FeedAll(hs, Alive([], None, []), chunks[..1]) == Pump(hs, [], None, s[..k]);
      assert FeedAll(hs, Alive([], None, []), chunks) == Pump(hs, [], None, s[..k]);
    }
  }

  /** What a read leaves over yields nothing more by itself. */
  lemma {:induction false} PumpIsExhaustive(hs: Handlers, log: seq<Frame>, pending: Option<FrameHeader>, s: seq<byte>)
    ensures var r := Pump(hs, log, pending, s); r.Alive? ==> Pump(hs, r.log, r.pending, r.rest) == r
    decreases |s|, if pending.Some? then 1 else 0
  {
    var n := if pending.None? then FRAME_HEADER_SIZE else pending.value.length;
    if |s| >= n {
      if pending.None? {
        PumpIsExhaustive(hs, log, Some(HeaderFromOctets(s[..n], hs.signed)), s[n..]);
      } else {
        var f := Frame(pending.value, s[..n]);
        if !hs.Rejects(log, f) && (!f.PingRequest() || |s| >= 16) {
          PumpIsExhaustive(hs, log + [f], None, if f.PingRequest() then s[16..] else s[n..]);
        }
      }
    }
  }

  /** A ping request and eight octets more: the reads matter, whatever the sign of `char`. */
  lemma PingSwallows(hs: Handlers, s: seq<byte>)
    requires |s| >= FRAME_HEADER_SIZE + 16 && s[..FRAME_HEADER_SIZE] == [0, 0, 8, PING, 0, 0, 0, 0, 0]
    ensures !NothingSwallowed(hs, [], None, s) && !ReadSizesDoNotMatter(hs, s)
  {
    hide Join;
    var octets, rest := s[..FRAME_HEADER_SIZE], s[FRAME_HEADER_SIZE..];
    JoinIsJoined(0, 0, 0, 8, hs.signed);
    JoinIsJoined(0, 0, 0, 0, hs.signed);
    var h := HeaderFromOctets(octets, hs.signed);
    assert h.frameType == PING && h.flags == 0 && h.streamId == 0 && h.length == 8;
    assert !NothingSwallowed(hs, [], Some(h), rest);
    ChunkIndependence(hs, s);
  }

  // ---------------------------------------------------------------- nothing lost

  function PendingOctets(pending: Option<FrameHeader>): seq<byte> {
    if pending.None? then [] else pending.value.Wire()
  }

  function LogOctets(log: seq<Frame>): seq<byte> {
    if log == [] then [] else LogOctets(log[..|log| - 1]) + log[|log| - 1].Octets()
  }

  // How many of the frames from `from` on are ping requests.
  function PingRequests(log: seq<Frame>): nat {
    if log == [] then 0 else PingRequests(log[..|log| - 1]) + if log[|log| - 1].PingRequest() then 1 else 0
  }

  lemma LogOctetsAppend(log: seq<Frame>, f: Frame)
    ensures LogOctets(log + [f]) == LogOctets(log) + f.Octets()
    ensures PingRequests(log + [f]) == PingRequests(log) + if f.PingRequest() then 1 else 0
  {
    assert (log + [f])[..|log + [f]| - 1] == log;
  }

  // The octets of a frame's header and payload, and those lost behind it.
  datatype Piece = Piece(header: seq<byte>, payload: seq<byte>, lost: seq<byte>)
  {
    function Octets(): seq<byte> {
      header + payload + lost
    }
  }

  function Joined(pieces: seq<Piece>): seq<byte> {
    if pieces == [] then [] else Joined(pieces[..|pieces| - 1]) + pieces[|pieces| - 1].Octets()
  }

  predicate HeaderIs(hs: Handlers, octets: seq<byte>, h: FrameHeader) {
    |octets| == FRAME_HEADER_SIZE && HeaderFromOctets(octets, hs.signed) == h
  }

  // A frame's octets, with so many lost behind them.
  predicate PieceOf(hs: Handlers, p: Piece, f: Frame, lost: nat) {
    HeaderIs(hs, p.header, f.header) && p.payload == f.payload && |p.lost| == lost
  }

  // Eight octets are lost behind every ping request, and none behind other frames.
  predicate EightAPing(hs: Handlers, pieces: seq<Piece>, log: seq<Frame>) {
    && |pieces| == |log|
    && forall i :: 0 <= i < |log| ==> PieceOf(hs, pieces[i], log[i], if log[i].PingRequest() then 8 else 0)
  }

  // What has become of octets: the frames handled, what was lost, and what came last.
  predicate Accounts(hs: Handlers, r: Reading, pieces: seq<Piece>, tail: seq<byte>) {
    match r
    case Alive(log, pending, rest) =>
      && EightAPing(hs, pieces, log)
      && if pending.None? then tail == rest
         else |tail| >= FRAME_HEADER_SIZE && HeaderIs(hs, tail[..FRAME_HEADER_SIZE], pending.value)
              && tail[FRAME_HEADER_SIZE..] == rest
    case Dead(log, Rejected(f)) =>
      && EightAPing(hs, pieces, log)
      && |tail| >= FRAME_HEADER_SIZE && HeaderIs(hs, tail[..FRAME_HEADER_SIZE], f.header)
      && f.payload <= tail[FRAME_HEADER_SIZE..]
    case Dead(log, Overrun) =>
      var n := |log| - 1;
      && |pieces| == |log| > 0 && EightAPing(hs, pieces[..n], log[..n])
      && log[n].PingRequest() && |pieces[n].lost| < 8 && PieceOf(hs, pieces[n], log[n], |pieces[n].lost|)
      && tail == []
    case Dead(_, InvalidPreface) => false
  }

  lemma JoinedAppend(pieces: seq<Piece>, p: Piece)
    ensures Joined(pieces + [p]) == Joined(pieces) + p.Octets()
  {
    assert (pieces + [p])[..|pieces|] == pieces;
  }

  lemma EightAPingAppend(hs: Handlers, pieces: seq<Piece>, log: seq<Frame>, p: Piece, f: Frame)
    requires EightAPing(hs, pieces, log) && PieceOf(hs, p, f, if f.PingRequest() then 8 else 0)
    ensures EightAPing(hs, pieces + [p], log + [f])
  {}

  lemma OverrunAccounts(hs: Handlers, pieces: seq<Piece>, log: seq<Frame>, p: Piece, f: Frame)
    requires EightAPing(hs, pieces, log) && f.PingRequest() && |p.lost| < 8 && PieceOf(hs, p, f, |p.lost|)
    ensures Accounts(hs, Dead(log + [f], Overrun), pieces + [p], [])
  {
    hide EightAPing;
    assert |pieces| == |log| by { SameLength(hs, pieces, log); }
    assert (pieces + [p])[..|log|] == pieces && (log + [f])[..|log|] == log;
  }

  lemma RejectedAccounts(hs: Handlers, pieces: seq<Piece>, log: seq<Frame>, header: seq<byte>, s: seq<byte>, f: Frame)
    requires EightAPing(hs, pieces, log) && HeaderIs(hs, header, f.header) && f.payload <= s
    ensures Accounts(hs, Dead(log, Rejected(f)), pieces, header + s)
  {
    hide EightAPing, HeaderFromOctets;
    assert (header + s)[..FRAME_HEADER_SIZE] == header && (header + s)[FRAME_HEADER_SIZE..] == s;
  }

  lemma SameLength(hs: Handlers, pieces: seq<Piece>, log: seq<Frame>)
    requires EightAPing(hs, pieces, log)
    ensures |pieces| == |log|
  {}

  // Reading on, with the octets of the frames so far and of the pending header.
  lemma {:induction false} PumpAccounts(hs: Handlers, log: seq<Frame>, pending: Option<FrameHeader>, s: seq<byte>,
                                        before: seq<Piece>, header: seq<byte>)
    returns (pieces: seq<Piece>, tail: seq<byte>)
    requires EightAPing(hs, before, log)
    requires if pending.Some? then HeaderIs(hs, header, pending.value) else header == []
    ensures Accounts(hs, Pump(hs, log, pending, s), pieces, tail)
    ensures Joined(pieces) + tail == Joined(before) + header + s
    decreases |s|, if pending.Some? then 1 else 0, 1
  {
    hide Joined, HeaderFromOctets, EightAPing, Handlers.Rejects;
    var n := if pending.None? then FRAME_HEADER_SIZE else pending.value.length;
    if |s| < n {
      pieces, tail := before, header + s;
      if pending.Some? { assert tail[..FRAME_HEADER_SIZE] == header && tail[FRAME_HEADER_SIZE..] == s; }
      assert Joined(before) + (header + s) == Joined(before) + header + s;
    } else if pending.None? {
      pieces, tail := PumpAccounts(hs, log, Some(HeaderFromOctets(s[..n], hs.signed)), s[n..], before, s[..n]);
      assert Joined(before) + s[..n] + s[n..] == Joined(before) + [] + s;
    } else {
      pieces, tail := FrameAccounts(hs, log, pending.value, s, before, header);
    }
  }

  lemma {:induction false} FrameAccounts(hs: Handlers, log: seq<Frame>, h: FrameHeader, s: seq<byte>,
                                         before: seq<Piece>, header: seq<byte>)
    returns (pieces: seq<Piece>, tail: seq<byte>)
    requires EightAPing(hs, before, log) && HeaderIs(hs, header, h) && h.length <= |s|
    ensures Accounts(hs, Pump(hs, log, Some(h), s), pieces, tail)
    ensures Joined(pieces) + tail == Joined(before) + header + s
    decreases |s|, 1, 0
  {
    hide Joined, HeaderFromOctets, EightAPing, Accounts;
    var f := Frame(h, s[..h.length]);
    if hs.Rejects(log, f) {
      pieces, tail := before, header + s;
      RejectedAccounts(hs, before, log, header, s, f);
      assert Joined(before) + (header + s) == Joined(before) + header + s;
    } else {
      var m := if !f.PingRequest() then h.length else if |s| < 16 then |s| else 16;
      var p := Piece(header, f.payload, s[h.length..m]);
      JoinedAppend(before, p);
      Regroup(Joined(before), header, f.payload, p.lost, s[m..], s);
      if f.PingRequest() && |s| < 16 {
        pieces, tail := before + [p], [];
        OverrunAccounts(hs, before, log, p, f);
        assert s[m..] == [];
      } else {
        EightAPingAppend(hs, before, log, p, f);
        pieces, tail := PumpAccounts(hs, log + [f], None, s[m..], before + [p], []);
      }
    }
  }

  lemma Regroup(joined: seq<byte>, header: seq<byte>, payload: seq<byte>, lost: seq<byte>, rest: seq<byte>,
                s: seq<byte>)
    requires s == payload + lost + rest
    ensures joined + (header + payload + lost) + [] + rest == joined + header + s
    ensures joined + (header + payload + lost) + rest == joined + header + s
  {}

  /**
   * Every octet received is in one frame's header or payload, in the pending header, the frame that was rejected or the
   * buffer, in order, but for the eight behind the payload of every ping request, or fewer that the connection ends on.
   */
  lemma PumpLosesEightAPing(hs: Handlers, s: seq<byte>) returns (pieces: seq<Piece>, tail: seq<byte>)
    ensures Accounts(hs, Pump(hs, [], None, s), pieces, tail) && Joined(pieces) + tail == s
  {
    hide Pump, Accounts;
    pieces, tail := PumpAccounts(hs, [], None, s, [], []);
    assert Joined([]) + [] + s == s;
  }

  // Counted, eight octets are lost for every ping request, whatever `char` makes of the headers.
  lemma {:induction false} PumpLengths(hs: Handlers, log: seq<Frame>, pending: Option<FrameHeader>, s: seq<byte>)
    requires Pump(hs, log, pending, s).Alive?
    ensures var r := Pump(hs, log, pending, s);
            |LogOctets(r.log)| + |PendingOctets(r.pending)| + |r.rest| + 8 * PingRequests(r.log)
            == |LogOctets(log)| + |PendingOctets(pending)| + |s| + 8 * PingRequests(log)
    decreases |s|, if pending.Some? then 1 else 0
  {
    var n := if pending.None? then FRAME_HEADER_SIZE else pending.value.length;
    if |s| >= n {
      if pending.None? {
        PumpLengths(hs, log, Some(HeaderFromOctets(s[..n], hs.signed)), s[n..]);
      } else {
        var f := Frame(pending.value, s[..n]);
        LogOctetsAppend(log, f);
        PumpLengths(hs, log + [f], None, if f.PingRequest() then s[16..] else s[n..]);
      }
    }
  }

  /** Reading on yields more frames, never other ones. */
  lemma {:induction false} StandardExtendsLog(hs: Handlers, log: seq<Frame>, pending: Option<FrameHeader>, s: seq<byte>)
    ensures log <= Standard(hs, log, pending, s).log
    ensures PingRequests(log) <= PingRequests(Standard(hs, log, pending, s).log)
    decreases |s|, if pending.Some? then 1 else 0
  {
    var n := if pending.None? then FRAME_HEADER_SIZE else pending.value.length;
    if |s| >= n {
      if pending.None? {
        StandardExtendsLog(hs, log, Some(HeaderFromOctets(s[..n], hs.signed)), s[n..]);
      } else {
        var f := Frame(pending.value, s[..n]);
        LogOctetsAppend(log, f);
        if !hs.Rejects(log, f) {
          StandardExtendsLog(hs, log + [f], None, s[n..]);
        }
      }
    }
  }

  lemma {:induction false} WithoutPings(hs: Handlers, log: seq<Frame>, pending: Option<FrameHeader>, s: seq<byte>)
    requires PingRequests(Standard(hs, log, pending, s).log) == PingRequests(log)
    ensures Pump(hs, log, pending, s) == Standard(hs, log, pending, s)
    decreases |s|, if pending.Some? then 1 else 0
  {
    var n := if pending.None? then FRAME_HEADER_SIZE else pending.value.length;
    if |s| >= n {
      if pending.None? {
        WithoutPings(hs, log, Some(HeaderFromOctets(s[..n], hs.signed)), s[n..]);
      } else {
        var f := Frame(pending.value, s[..n]);
        LogOctetsAppend(log, f);
        if !hs.Rejects(log, f) {
          StandardExtendsLog(hs, log + [f], None, s[n..]);
          WithoutPings(hs, log + [f], None, s[n..]);
        }
      }
    }
  }

  /** A connection that the standard keeps alive is read as the standard says if and only if nobody asks for a ping. */
  lemma FollowsStandard(hs: Handlers, s: seq<byte>)
    requires Standard(hs, [], None, s).Alive?
    ensures Pump(hs, [], None, s) == Standard(hs, [], None, s)
            <==> PingRequests(Standard(hs, [], None, s).log) == 0
  {
    var r := Standard(hs, [], None, s);
    if PingRequests(r.log) == 0 {
      WithoutPings(hs, [], None, s);
    } else if Pump(hs, [], None, s) == r {
      PumpLengths(hs, [], None, s);
      StandardLosesNothingInLength(hs, [], None, s);
      assert false;
    }
  }

  lemma {:induction false} StandardLosesNothingInLength(hs: Handlers, log: seq<Frame>, pending: Option<FrameHeader>,
                                                       s: seq<byte>)
    requires Standard(hs, log, pending, s).Alive?
    ensures var r := Standard(hs, log, pending, s);
            |LogOctets(r.log)| + |PendingOctets(r.pending)| + |r.rest|
            == |LogOctets(log)| + |PendingOctets(pending)| + |s|
    decreases |s|, if pending.Some? then 1 else 0
  {
    var n := if pending.None? then FRAME_HEADER_SIZE else pending.value.length;
    if |s| >= n {
      if pending.None? {
        StandardLosesNothingInLength(hs, log, Some(HeaderFromOctets(s[..n], hs.signed)), s[n..]);
      } else {
        var f := Frame(pending.value, s[..n]);
        LogOctetsAppend(log, f);
        StandardLosesNothingInLength(hs, log + [f], None, s[n..]);
      }
    }
  }
}
