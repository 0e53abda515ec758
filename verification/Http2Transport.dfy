/** The HTTP/2 server's receiving side, over the connection's input buffer. */
module Http2Transport {
  import opened Wrappers
  import opened Octets
  import opened Http2Wire
  import opened FrameReader
  import Buffer = StreamBuf

  const CLIENT_PREFACE: seq<byte> :=
    [0x50, 0x52, 0x49, 0x20, 0x2a, 0x20, 0x48, 0x54, 0x54, 0x50, 0x2f, 0x32, 0x2e, 0x30, 0x0d, 0x0a,
     0x0d, 0x0a, 0x53, 0x4d, 0x0d, 0x0a, 0x0d, 0x0a]

  // What `onInput` makes of the buffer. Frames are looked for even where the preface is not complete.
  function Received(hs: Handlers, preface: bool, log: seq<Frame>, pending: Option<FrameHeader>, s: seq<byte>): Reading {
    if preface || |s| < |CLIENT_PREFACE| then Pump(hs, log, pending, s)
    else if s[..|CLIENT_PREFACE|] != CLIENT_PREFACE then Dead(log, InvalidPreface)
    else Pump(hs, log, pending, s[|CLIENT_PREFACE|..])
  }

  /** The preface is the text of section 3.5 of RFC 7540. */
  lemma PrefaceSpelled()
    ensures CLIENT_PREFACE == Ascii("PRI * HTTP/2.0\r\n\r\nSM\r\n\r\n")
  {}

  /** With as many octets as a preface, the connection ends if they are none; else frames are read behind it. */
  lemma PrefaceExactly(hs: Handlers, s: seq<byte>)
    requires |s| >= 24
    ensures Received(hs, false, [], None, s)
            == if s[..24] == Ascii("PRI * HTTP/2.0\r\n\r\nSM\r\n\r\n") then Pump(hs, [], None, s[24..])
               else Dead([], InvalidPreface)
  {
    hide Pump, Ascii;
    PrefaceSpelled();
  }

  /** Fewer octets than a preface are left alone if and only if they are fewer than a frame header. */
  lemma EarlyFrames(hs: Handlers, s: seq<byte>)
    requires |s| < |CLIENT_PREFACE|
    ensures Received(hs, false, [], None, s) == Alive([], None, s) <==> |s| < FRAME_HEADER_SIZE
  {
    hide HeaderFromOctets;
    if |s| >= FRAME_HEADER_SIZE {
      var h := HeaderFromOctets(s[..FRAME_HEADER_SIZE], hs.signed);
      var rest := s[FRAME_HEADER_SIZE..];
      PumpKeepsLog(hs, [], Some(h), rest);
    }
  }

  class ServerTransport {
    const handlers: Handlers
    var prefaceReceived: bool
    var currentFrameHeader: Option<FrameHeader>
    // The frames whose handlers have returned.
    var log: seq<Frame>

    constructor (handlers: Handlers)
      ensures this.handlers == handlers && !prefaceReceived && currentFrameHeader == None && log == []
    {
      this.handlers := handlers;
      prefaceReceived, currentFrameHeader, log := false, None, [];
    }

    // The state of the connection, after a method that returned `thrown`.
    ghost function State(thrown: Option<Cause>, buf: Buffer.StreamBuf): Reading
      requires buf.Valid()
      reads this, buf, buf.buf
    {
      if thrown.Some? then Dead(log, thrown.value) else Alive(log, currentFrameHeader, buf.Contents())
    }

    method OnInput(buf: Buffer.StreamBuf) returns (thrown: Option<Cause>)
      requires buf.Valid()
      modifies this, buf, buf.buf
      ensures buf.Valid() && buf.buf == old(buf.buf)
      ensures State(thrown, buf)
              == old(Received(handlers, prefaceReceived, log, currentFrameHeader, buf.Contents()))
      ensures prefaceReceived == old(prefaceReceived || CLIENT_PREFACE <= buf.Contents())
    {
      if !prefaceReceived {
        thrown := ReceivePreface(buf);
        if thrown.Some? {
          return;
        }
        if prefaceReceived {
          PumpIsExhaustive(handlers, old(log), old(currentFrameHeader), old(buf.Contents())[|CLIENT_PREFACE|..]);
        }
      }
      thrown := ReceiveFrames(buf);
    }

    method ReceivePreface(buf: Buffer.StreamBuf) returns (thrown: Option<Cause>)
      requires buf.Valid() && !prefaceReceived
      modifies this, buf, buf.buf
      ensures buf.Valid() && buf.buf == old(buf.buf)
      ensures prefaceReceived == (CLIENT_PREFACE <= old(buf.Contents()))
      ensures |old(buf.Contents())| < |CLIENT_PREFACE| ==> State(thrown, buf) == old(State(None, buf))
      ensures |old(buf.Contents())| >= |CLIENT_PREFACE| ==>
                State(thrown, buf) == old(Received(handlers, false, log, currentFrameHeader, buf.Contents()))
    {
      if buf.Size() < |CLIENT_PREFACE| {
        return None;
      }
      var front := buf.Front(|CLIENT_PREFACE|);
      if front != CLIENT_PREFACE {
        return Some(InvalidPreface);
      }
      prefaceReceived := true;
      var ok := buf.Advance(|CLIENT_PREFACE|);
      thrown := ReceiveFrames(buf);
    }

    method ReceiveFrames(buf: Buffer.StreamBuf) returns (thrown: Option<Cause>)
      requires buf.Valid()
      modifies this`log, this`currentFrameHeader, buf, buf.buf
      ensures buf.Valid() && buf.buf == old(buf.buf)
      ensures State(thrown, buf) == old(Pump(handlers, log, currentFrameHeader, buf.Contents()))
    {
      var moreToProcess;
      moreToProcess, thrown := ReceiveFrame(buf);
      while thrown.None? && moreToProcess && buf.Size() != 0
        invariant buf.Valid() && buf.buf == old(buf.buf)
        invariant moreToProcess ==> thrown.None?
        invariant old(Pump(handlers, log, currentFrameHeader, buf.Contents()))
                  == if moreToProcess then Pump(handlers, log, currentFrameHeader, buf.Contents())
                     else State(thrown, buf)
        invariant moreToProcess ==> currentFrameHeader == None
        decreases moreToProcess, buf.Size()
      {
        moreToProcess, thrown := ReceiveFrame(buf);
      }
    }

    // Whether a frame has been processed, so that there may be another.
    method ReceiveFrame(buf: Buffer.StreamBuf) returns (again: bool, thrown: Option<Cause>)
      requires buf.Valid()
      modifies this`log, this`currentFrameHeader, buf, buf.buf
      ensures buf.Valid() && buf.buf == old(buf.buf)
      ensures again ==> thrown.None? && currentFrameHeader == None
      ensures again ==> old(currentFrameHeader).Some? || buf.Size() < old(buf.Size())
      ensures old(Pump(handlers, log, currentFrameHeader, buf.Contents()))
              == if again then Pump(handlers, log, currentFrameHeader, buf.Contents()) else State(thrown, buf)
    {
      if currentFrameHeader.None? {
        ReceiveFrameHeader(buf);
      }
      if currentFrameHeader.None? {
        return false, None;
      }
      if buf.Size() < currentFrameHeader.value.length {
        return false, None;
      }
      thrown := ProcessFrameBody(buf);
      again := thrown.None?;
    }

    method ReceiveFrameHeader(buf: Buffer.StreamBuf)
      requires buf.Valid() && currentFrameHeader.None?
      modifies this`currentFrameHeader, buf, buf.buf
      ensures buf.Valid() && buf.buf == old(buf.buf)
      ensures currentFrameHeader.None? <==> |old(buf.Contents())| < FRAME_HEADER_SIZE
      ensures currentFrameHeader.None? ==> buf.Contents() == old(buf.Contents())
      ensures currentFrameHeader.Some? ==>
                && currentFrameHeader.value
                   == HeaderFromOctets(old(buf.Contents())[..FRAME_HEADER_SIZE], handlers.signed)
                && buf.Contents() == old(buf.Contents())[FRAME_HEADER_SIZE..]
    {
      if buf.Size() < FRAME_HEADER_SIZE {
        return;
      }
      var octets := buf.Front(FRAME_HEADER_SIZE);
      currentFrameHeader := Some(HeaderFromOctets(octets, handlers.signed));
      var ok := buf.Advance(FRAME_HEADER_SIZE);
    }

    method ProcessFrameBody(buf: Buffer.StreamBuf) returns (thrown: Option<Cause>)
      requires buf.Valid() && currentFrameHeader.Some? && currentFrameHeader.value.length <= |buf.Contents()|
      modifies this`log, this`currentFrameHeader, buf, buf.buf
      ensures buf.Valid() && buf.buf == old(buf.buf)
      ensures thrown.None? ==> currentFrameHeader == None && buf.Size() <= old(buf.Size())
      ensures old(Pump(handlers, log, currentFrameHeader, buf.Contents()))
              == if thrown.None? then Pump(handlers, log, currentFrameHeader, buf.Contents()) else State(thrown, buf)
    {
      var header := currentFrameHeader.value;
      var payload := buf.Front(header.length);
      var frame := Frame(header, payload);
      if handlers.Rejects(log, frame) {
        return Some(Rejected(frame));
      }
      log := log + [frame];
      if frame.PingRequest() {
        ReceivePing(buf);
      }
      var ok := buf.Advance(header.length);
      if !ok {
        return Some(Overrun);
      }
      currentFrameHeader := None;
      return None;
    }

    // The request's payload goes back to the peer, and off the buffer.
    method ReceivePing(buf: Buffer.StreamBuf)
      requires buf.Valid() && |buf.Contents()| >= 8
      modifies buf, buf.buf
      ensures buf.Valid() && buf.buf == old(buf.buf) && buf.Contents() == old(buf.Contents())[8..]
    {
      var ok := buf.Advance(8);
    }
  }
}
