/** The HTTP/1 transport's receiving side, over the connection's input buffer. */
module Http1Transport {
  import opened Wrappers
  import opened Octets
  import opened Http1Text
  import opened Http1Reader
  import Buffer = StreamBuf

  // None until a whole line has arrived. The line leaves the buffer.
  method GetLine(buf: Buffer.StreamBuf) returns (text: Option<seq<byte>>)
    requires buf.Valid()
    modifies buf, buf.buf
    ensures buf.Valid() && buf.buf == old(buf.buf)
    ensures match old(FirstLine(buf.Contents()))
            case None => text == None && buf.Contents() == old(buf.Contents())
            case Some(line) => text == Some(line.text) && buf.Contents() == line.rest
  {
    var data := buf.Front(buf.Size());
    assert data == buf.Contents();
    var end := FindEndOfLine(data);
    if end.None? {
      return None;
    }
    var line := data[..end.value];
    var ok := buf.Advance(end.value);
    return Some(TrimNewline(line));
  }

  class Transport {
    const handlers: Handlers
    var incomingMessage: Option<Message>
    var lastHeader: seq<byte>
    var messageHeadersComplete: bool
    // The length announced; -1 where the body comes in chunks.
    var expectedBodyLength: int
    // The messages whose handler has returned, and whether the connection has been closed.
    var log: seq<Message>
    var closed: bool

    constructor (handlers: Handlers)
      ensures this.handlers == handlers && Valid() && log == [] && !closed && Progress() == Idle
    {
      this.handlers := handlers;
      incomingMessage, lastHeader, messageHeadersComplete, expectedBodyLength := None, [], false, 0;
      log, closed := [], false;
    }

    ghost predicate Valid()
      reads this
    {
      && (incomingMessage.None? ==> lastHeader == [])
      && (incomingMessage.Some? && messageHeadersComplete ==> !IsMessageComplete())
    }

    function Progress(): Progress
      reads this
    {
      if incomingMessage.None? then Idle
      else if messageHeadersComplete then Body(incomingMessage.value, expectedBodyLength)
      else Heading(incomingMessage.value, lastHeader)
    }

    // The state of the connection, after a method that returned `thrown`.
    ghost function After(thrown: Option<Cause>, rest: seq<byte>): State
      reads this
    {
      if thrown.Some? then Dead(log, thrown.value) else Open(log, Progress(), rest, closed)
    }

    predicate IsMessageComplete()
      reads this
    {
      incomingMessage.Some? && |incomingMessage.value.body| == expectedBodyLength
    }

    method OnInput(input: Buffer.StreamBuf) returns (thrown: Option<Cause>)
      requires Valid() && input.Valid()
      modifies this, input, input.buf
      ensures input.Valid() && input.buf == old(input.buf)
      ensures thrown.None? ==> Valid()
      ensures After(thrown, input.Contents()) == old(Process(handlers, log, Progress(), input.Contents(), closed))
    {
      var continu;
      continu, thrown := ProcessInput(input);
      while continu && input.Size() != 0
        invariant input.Valid() && input.buf == old(input.buf)
        invariant thrown.None? ==> Valid()
        invariant continu ==> thrown.None? && !Progress().Body?
        invariant old(Process(handlers, log, Progress(), input.Contents(), closed))
                  == if continu then Process(handlers, log, Progress(), input.Contents(), closed)
                     else After(thrown, input.Contents())
        decreases continu, input.Size()
      {
        continu, thrown := ProcessInput(input);
      }
      if continu {
        EmptyInput(handlers, log, Progress(), closed);
      }
    }

    // One step. Says whether another one may follow.
    method ProcessInput(input: Buffer.StreamBuf) returns (continu: bool, thrown: Option<Cause>)
      requires Valid() && input.Valid()
      modifies this, input, input.buf
      ensures input.Valid() && input.buf == old(input.buf)
      ensures thrown.None? ==> Valid()
      ensures continu ==> thrown.None? && input.Size() < old(input.Size()) && !Progress().Body?
      ensures old(Process(handlers, log, Progress(), input.Contents(), closed))
              == if continu then Process(handlers, log, Progress(), input.Contents(), closed)
                 else After(thrown, input.Contents())
    {
      hide FirstLine, Handlers.AsksToClose, Handlers.ContentLength, Continued, Headed;
      if input.Size() == 0 {
        EmptyInput(handlers, log, Progress(), closed);
        return false, None;
      }
      if incomingMessage.Some? && messageHeadersComplete && !IsMessageComplete() {
        thrown := ReadBody(input);
        if thrown.Some? {
          return false, thrown;
        }
        if IsMessageComplete() {
          thrown := HandleMessage();
          assert After(thrown, []) == After(thrown, input.Contents());
          EmptyInput(handlers, log, Idle, closed);
          return thrown.None?, thrown;
        }
        return false, None;
      }
      var text := GetLine(input);
      if text.None? {
        return false, None;
      }
      if incomingMessage.None? {
        messageHeadersComplete := false;
        incomingMessage := Some(Message(text.value, [], []));
        return true, None;
      }
      if text.value == [] {
        thrown := MarkHeadersComplete();
        if thrown.Some? {
          return false, thrown;
        }
        if IsMessageComplete() {
          thrown := HandleMessage();
          assert After(thrown, input.Contents()) == After(thrown, old(FirstLine(input.Contents()).value.rest));
          return thrown.None?, thrown;
        }
        return false, None;
      }
      if IsLWS(text.value[0]) {
        thrown := HeaderContinuation(text.value);
        return thrown.None?, thrown;
      }
      thrown := HeaderLine(text.value);
      return thrown.None?, thrown;
    }

    method ReadBody(input: Buffer.StreamBuf) returns (thrown: Option<Cause>)
      requires incomingMessage.Some? && input.Valid()
      modifies this`incomingMessage, input, input.buf
      ensures input.Valid() && input.buf == old(input.buf)
      ensures thrown
              == if expectedBodyLength == -1 then Some(ChunkedBody)
                 else if |old(input.Contents())| < expectedBodyLength then Some(BodyOverrun)
                 else None
      ensures thrown.None? ==> input.Contents() == []
      ensures thrown.None? ==> incomingMessage == Some(Appended(old(incomingMessage.value), old(input.Contents())))
    {
      if expectedBodyLength == -1 {
        return Some(ChunkedBody);
      }
      thrown := ReadContent(input);
    }

    static function Appended(m: Message, data: seq<byte>): Message {
      m.(body := m.body + data)
    }

    method ReadContent(input: Buffer.StreamBuf) returns (thrown: Option<Cause>)
      requires incomingMessage.Some? && input.Valid()
      modifies this`incomingMessage, input, input.buf
      ensures input.Valid() && input.buf == old(input.buf)
      ensures thrown == if |old(input.Contents())| < expectedBodyLength then Some(BodyOverrun) else None
      ensures thrown.None? ==> input.Contents() == []
      ensures thrown.None? ==> incomingMessage == Some(Appended(old(incomingMessage.value), old(input.Contents())))
    {
      var len := if input.Size() < expectedBodyLength then expectedBodyLength else input.Size();
      if len <= input.Size() {
        var data := input.Front(len);
        assert data == input.Contents();
        incomingMessage := Some(Appended(incomingMessage.value, data));
      }
      var ok := input.Advance(len);
      if !ok {
        return Some(BodyOverrun);
      }
      return None;
    }

    method MarkHeadersComplete() returns (thrown: Option<Cause>)
      requires incomingMessage.Some?
      modifies this`messageHeadersComplete, this`expectedBodyLength
      ensures messageHeadersComplete
      ensures match handlers.ContentLength(incomingMessage.value.headers)
              case Unreadable(cause) => thrown == Some(cause)
              case Known(length) => thrown == None && expectedBodyLength == length
    {
      messageHeadersComplete := true;
      var announced := handlers.ContentLength(incomingMessage.value.headers);
      if announced.Unreadable? {
        return Some(announced.cause);
      }
      expectedBodyLength := announced.length;
      return None;
    }

    method HandleMessage() returns (thrown: Option<Cause>)
      requires incomingMessage.Some?
      modifies this
      ensures thrown.None? ==> Valid()
      ensures forall rest ::
                After(thrown, rest) == old(Handle(handlers, log, incomingMessage.value, rest, closed))
    {
      var hasConnectionClose := handlers.AsksToClose(incomingMessage.value);
      if handlers.throws(log, incomingMessage.value) {
        return Some(HandlerThrew);
      }
      log := log + [incomingMessage.value];
      ResetIncomingMessage();
      if hasConnectionClose {
        closed := true;
      }
      return None;
    }

    method ResetIncomingMessage()
      modifies this`incomingMessage, this`lastHeader, this`messageHeadersComplete, this`expectedBodyLength
      ensures Valid() && Progress() == Idle
    {
      incomingMessage := None;
      lastHeader := [];
      messageHeadersComplete := false;
      expectedBodyLength := 0;
    }

    method HeaderLine(line: seq<byte>) returns (thrown: Option<Cause>)
      requires Valid() && Progress().Heading?
      modifies this`incomingMessage, this`lastHeader
      ensures thrown.None? ==> Valid()
      ensures Headed(old(incomingMessage.value), line)
              == if thrown.Some? then Threw(thrown.value) else Next(Progress())
    {
      hide Lower, TrimmedLeading, TrimmedTrailing;
      var colon := Find(line, COLON, 0);
      if colon.None? {
        return Some(NoColon);
      }
      var startOfValue := colon.value;
      if colon.value < |line| - 1 && line[colon.value + 1] == SP {
        startOfValue := startOfValue + 1;
      }
      var value := TrimLWS(line[startOfValue..]);
      var name := Lower(line[..colon.value]);
      lastHeader := name;
      var m := incomingMessage.value;
      incomingMessage := Some(m.(headers := m.headers + [Field(name, value)]));
      return None;
    }

    method HeaderContinuation(line: seq<byte>) returns (thrown: Option<Cause>)
      requires Valid() && Progress().Heading?
      modifies this`incomingMessage
      ensures thrown.None? ==> Valid()
      ensures Continued(handlers, old(incomingMessage.value), lastHeader, line)
              == if thrown.Some? then Threw(thrown.value) else Next(Progress())
    {
      if lastHeader == [] {
        return Some(NothingToContinue);
      }
      var m := incomingMessage.value;
      var i := handlers.Find(m.headers, lastHeader);
      if i.None? {
        return Some(NothingToContinue);
      }
      var h := m.headers[i.value];
      incomingMessage := Some(m.(headers := m.headers[i.value := h.(value := h.value + line)]));
      return None;
    }
  }

  lemma EmptyInput(hs: Handlers, log: seq<Message>, progress: Progress, closed: bool)
    ensures Process(hs, log, progress, [], closed) == Open(log, progress, [], closed)
  {
    hide OnLine, FirstLine;
    assert FirstLine([]).None? by { NoFirstLine(); }
  }

  lemma NoFirstLine()
    ensures FirstLine([]).None?
  {}
}
