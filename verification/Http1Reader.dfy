/**
 * Assembling HTTP/1 messages from a stream of octets: what the input loop makes of the octets it has, as a function,
 * and how that depends on the sizes of the reads that bring them.
 */
module Http1Reader {
  import opened Wrappers
  import opened Octets
  import opened Http1Text

  datatype Message = Message(firstLine: seq<byte>, headers: seq<Field>, body: seq<byte>)

  // What the exceptions are about.
  datatype Cause =
    | NoColon | NothingToContinue | InvalidLength | LengthTooBig | ChunkedBody | BodyOverrun | HandlerThrew

  const CONTENT_LENGTH: seq<byte> := Ascii("content-length")
  const TRANSFER_ENCODING: seq<byte> := Ascii("transfer-encoding")
  const CONNECTION: seq<byte> := Ascii("connection")
  const CLOSE: seq<byte> := Ascii("close")

  // The place of the first header with this name.
  function FirstNamed(hs: seq<Field>, name: seq<byte>): (r: Option<nat>)
    ensures r.Some? ==> r.value < |hs| && hs[r.value].name == name
    ensures r.None? ==> forall h :: h in hs ==> h.name != name
  {
    if hs == [] then None
    else if hs[0].name == name then Some(0)
    else
      var r := FirstNamed(hs[1..], name);
      if r.None? then None else Some(r.value + 1)
  }

  // What is library or application: which of several headers of the same name a hash map finds, and which messages the
  // handler throws for, after those it has handled.
  datatype Handlers = Handlers(pick: (seq<Field>, seq<byte>) -> nat, throws: (seq<Message>, Message) -> bool)
  {
    function Find(hs: seq<Field>, name: seq<byte>): (r: Option<nat>)
      ensures r.Some? ==> r.value < |hs| && hs[r.value].name == name
      ensures r.None? <==> forall h :: h in hs ==> h.name != name
    {
      var i := pick(hs, name);
      if i < |hs| && hs[i].name == name then Some(i) else FirstNamed(hs, name)
    }

    // The value of a header; empty if there is none.
    function Get(hs: seq<Field>, name: seq<byte>): seq<byte> {
      var i := Find(hs, name);
      if i.None? then [] else hs[i.value].value
    }

    predicate AsksToClose(m: Message) {
      Get(m.headers, CONNECTION) == CLOSE
    }

    // -1 for a body in chunks, or else why there is no length.
    function ContentLength(hs: seq<Field>): (r: Announced)
      ensures r.Known? ==> -1 <= r.length <= SSIZE_MAX
    {
      var i := Find(hs, CONTENT_LENGTH);
      if i.Some? then
        var n := Stoul(hs[i.value].value);
        if n.None? then Unreadable(InvalidLength)
        else if n.value > SSIZE_MAX then Unreadable(LengthTooBig)
        else Known(n.value)
      else Known(if Find(hs, TRANSFER_ENCODING).Some? then -1 else 0)
    }
  }

  datatype Announced = Known(length: int) | Unreadable(cause: Cause)

  // The message in progress. While its headers arrive, the name of the last of them is known.
  datatype Progress =
    | Idle
    | Heading(message: Message, lastHeader: seq<byte>)
    | Body(message: Message, expected: int)

  // The messages handled, the one in progress, the octets still in the buffer, and whether the connection was closed.
  datatype State =
    | Open(log: seq<Message>, progress: Progress, rest: seq<byte>, closed: bool)
    | Dead(log: seq<Message>, cause: Cause)

  // What one line does.
  datatype Effect = Next(progress: Progress) | Handled(message: Message) | AwaitBody(message: Message, length: int)
                  | Threw(cause: Cause)

  // A line that starts with white space continues a header of the last name.
  function Continued(hs: Handlers, m: Message, lastHeader: seq<byte>, line: seq<byte>): Effect {
    var i := hs.Find(m.headers, lastHeader);
    if lastHeader == [] || i.None? then Threw(NothingToContinue)
    else
      var h := m.headers[i.value];
      Next(Heading(m.(headers := m.headers[i.value := h.(value := h.value + line)]), lastHeader))
  }

  function Headed(m: Message, line: seq<byte>): Effect {
    var f := ParsedField(line);
    if f.None? then Threw(NoColon) else Next(Heading(m.(headers := m.headers + [f.value]), f.value.name))
  }

  function OnLine(hs: Handlers, progress: Progress, line: seq<byte>): (e: Effect)
    requires !progress.Body?
    ensures e.Next? ==> e.progress.Heading?
  {
    if progress.Idle? then Next(Heading(Message(line, [], []), []))
    else
      var m := progress.message;
      if line == [] then
        var announced := hs.ContentLength(m.headers);
        if announced.Unreadable? then Threw(announced.cause)
        else if announced.length == |m.body| then Handled(m)
        else AwaitBody(m, announced.length)
      else if IsLWS(line[0]) then Continued(hs, m, progress.lastHeader, line)
      else Headed(m, line)
  }

  // The log and the progress once a complete message is handed over.
  function Handle(hs: Handlers, log: seq<Message>, m: Message, rest: seq<byte>, closed: bool): State {
    if hs.throws(log, m) then Dead(log, HandlerThrew) else Open(log + [m], Idle, rest, closed || hs.AsksToClose(m))
  }

  // The input loop up to a message in want of its body. Nothing stops it when the connection is closed.
  function Run(hs: Handlers, log: seq<Message>, progress: Progress, s: seq<byte>, closed: bool): State
    requires !progress.Body?
    decreases |s|
  {
    match FirstLine(s)
    case None => Open(log, progress, s, closed)
    case Some(line) =>
      match OnLine(hs, progress, line.text)
      case Threw(cause) => Dead(log, cause)
      case Next(p) => Run(hs, log, p, line.rest, closed)
      case AwaitBody(m, length) => Open(log, Body(m, length), line.rest, closed)
      case Handled(m) =>
        var st := Handle(hs, log, m, line.rest, closed);
        if st.Dead? then st else Run(hs, st.log, Idle, st.rest, st.closed)
  }

  // Everything in the buffer is taken for the body; less than its length is one octet or more too few to take.
  function ReadBody(hs: Handlers, log: seq<Message>, m: Message, expected: int, s: seq<byte>, closed: bool): State {
    if expected == -1 then Dead(log, ChunkedBody)
    else if |s| < expected then Dead(log, BodyOverrun)
    else
      var longer := m.(body := m.body + s);
      if |longer.body| == expected then Handle(hs, log, longer, [], closed)
      else Open(log, Body(longer, expected), [], closed)
  }

  function Process(hs: Handlers, log: seq<Message>, progress: Progress, s: seq<byte>, closed: bool): State {
    if !progress.Body? then Run(hs, log, progress, s, closed)
    else if s == [] then Open(log, progress, s, closed)
    else ReadBody(hs, log, progress.message, progress.expected, s, closed)
  }

  const START := Open([], Idle, [], false)

  // ---------------------------------------------------------------- what headers announce

  predicate Names(hs: seq<Field>, name: string) {
    exists f :: f in hs && f.name == Ascii(name)
  }

  // Every header of this name has this value.
  predicate AllSay(hs: seq<Field>, name: string, value: seq<byte>) {
    forall f :: f in hs && f.name == Ascii(name) ==> f.value == value
  }

  lemma FindsNamed(h: Handlers, hs: seq<Field>, name: string)
    ensures h.Find(hs, Ascii(name)).Some? <==> Names(hs, name)
    ensures h.Find(hs, Ascii(name)).Some? ==>
              var f := hs[h.Find(hs, Ascii(name)).value]; f in hs && f.name == Ascii(name)
  {
    hide Ascii;
  }

  /** Without a length there is no body, unless a transfer coding is named; then it comes in chunks. */
  lemma NoLengthMeans(h: Handlers, hs: seq<Field>)
    requires !Names(hs, "content-length")
    ensures h.ContentLength(hs) == Known(if Names(hs, "transfer-encoding") then -1 else 0)
  {
    hide Ascii, Handlers.Find, Stoul;
    FindsNamed(h, hs, "content-length");
    FindsNamed(h, hs, "transfer-encoding");
  }

  /** One length named, it counts if it is a number and fits a signed size. */
  lemma LengthMeans(h: Handlers, hs: seq<Field>, value: seq<byte>)
    requires Names(hs, "content-length") && AllSay(hs, "content-length", value)
    ensures h.ContentLength(hs)
            == match Stoul(value)
               case None => Unreadable(InvalidLength)
               case Some(n) => if n > 0x7fff_ffff_ffff_ffff then Unreadable(LengthTooBig) else Known(n)
  {
    hide Ascii, Handlers.Find, Stoul;
    FindsNamed(h, hs, "content-length");
  }

  /** A message is sure to close the connection if and only if it says so, and nothing else. */
  lemma SureToClose(m: Message)
    ensures (forall pick, throws :: Handlers(pick, throws).AsksToClose(m))
            <==> Names(m.headers, "connection") && AllSay(m.headers, "connection", Ascii("close"))
  {
    hide Ascii, Handlers.Find, Handlers.AsksToClose;
    if Names(m.headers, "connection") && AllSay(m.headers, "connection", Ascii("close")) {
      forall pick, throws ensures Handlers(pick, throws).AsksToClose(m) {
        ClosesByName(Handlers(pick, throws), m);
      }
    } else if Names(m.headers, "connection") {
      var i :| 0 <= i < |m.headers| && m.headers[i].name == Ascii("connection") && m.headers[i].value != Ascii("close");
      var h := Picked(m, i);
      assert !Handlers(h.pick, h.throws).AsksToClose(m);
    } else {
      var h := Handlers((_, _) => 0, (_, _) => false);
      ClosesByName(h, m);
      assert !Handlers(h.pick, h.throws).AsksToClose(m);
    }
  }

  /** It can close the connection, as the hash map has it, if and only if it says so at all. */
  lemma CanClose(m: Message)
    ensures (exists pick, throws :: Handlers(pick, throws).AsksToClose(m))
            <==> Field(Ascii("connection"), Ascii("close")) in m.headers
  {
    hide Ascii, Handlers.Find, Handlers.AsksToClose;
    if Field(Ascii("connection"), Ascii("close")) in m.headers {
      var i :| 0 <= i < |m.headers| && m.headers[i] == Field(Ascii("connection"), Ascii("close"));
      var h := Picked(m, i);
      assert Handlers(h.pick, h.throws).AsksToClose(m);
    } else {
      forall pick, throws ensures !Handlers(pick, throws).AsksToClose(m) {
        ClosesByName(Handlers(pick, throws), m);
      }
    }
  }

  lemma ClosesByName(h: Handlers, m: Message)
    ensures Names(m.headers, "connection") && AllSay(m.headers, "connection", Ascii("close")) ==> h.AsksToClose(m)
    ensures h.AsksToClose(m) ==> Field(Ascii("connection"), Ascii("close")) in m.headers
  {
    hide Ascii, Handlers.Find;
    CloseHasFive();
    FindsNamed(h, m.headers, "connection");
    var i := h.Find(m.headers, Ascii("connection"));
    if i.Some? { assert m.headers[i.value] == Field(Ascii("connection"), m.headers[i.value].value); }
  }

  lemma CloseHasFive()
    ensures |Ascii("close")| == 5
  {}

  // A hash map that finds this one.
  lemma Picked(m: Message, i: nat) returns (h: Handlers)
    requires i < |m.headers| && m.headers[i].name == Ascii("connection")
    ensures h.AsksToClose(m) <==> m.headers[i].value == Ascii("close")
  {
    hide Ascii;
    h := Handlers((_, _) => i, (_, _) => false);
    assert h.Find(m.headers, Ascii("connection")) == Some(i);
  }

  // ---------------------------------------------------------------- continued headers

  // A line that continues header `f`, the last one so far, does so.
  ghost predicate ContinuesLast(hs: Handlers, m: Message, f: Field, line: seq<byte>) {
    Continued(hs, m.(headers := m.headers + [f]), f.name, line)
    == Next(Heading(m.(headers := m.headers + [f.(value := f.value + line)]), f.name))
  }

  lemma OnlyNamesake(hs: Handlers, m: Message, f: Field, line: seq<byte>)
    requires f.name != [] && forall k :: 0 <= k < |m.headers| ==> m.headers[k].name != f.name
    ensures ContinuesLast(hs, m, f, line)
  {
    var all := m.headers + [f];
    assert all[|m.headers|] == f && f in all;
    assert all[|m.headers| := f.(value := f.value + line)] == m.headers + [f.(value := f.value + line)];
  }

  lemma WrongNamesake(hs: Handlers, m: Message, f: Field, line: seq<byte>, i: nat)
    requires f.name != [] && line != [] && i < |m.headers| && m.headers[i].name == f.name
    requires hs.pick(m.headers + [f], f.name) == i
    ensures !ContinuesLast(hs, m, f, line)
  {
    var all := m.headers + [f];
    assert hs.Find(all, f.name) == Some(i);
    var h := all[i];
    assert all[i := h.(value := h.value + line)][|m.headers|] == f;
    assert (m.headers + [f.(value := f.value + line)])[|m.headers|] == f.(value := f.value + line);
    assert |f.value + line| > |f.value|;
  }

  /** A folded header is put together whatever the hash map finds, if and only if no header before has its name. */
  lemma ContinuedExactly(m: Message, f: Field, line: seq<byte>)
    requires f.name != [] && line != []
    ensures (forall pick, throws :: ContinuesLast(Handlers(pick, throws), m, f, line))
            <==> forall h :: h in m.headers ==> h.name != f.name
  {
    hide ContinuesLast;
    if forall h :: h in m.headers ==> h.name != f.name {
      forall pick, throws ensures ContinuesLast(Handlers(pick, throws), m, f, line) {
        OnlyNamesake(Handlers(pick, throws), m, f, line);
      }
    } else {
      var i :| 0 <= i < |m.headers| && m.headers[i].name == f.name;
      var hs := Handlers((_, _) => i, (_, _) => false);
      WrongNamesake(hs, m, f, line, i);
    }
  }

  // ---------------------------------------------------------------- reads of any size

  // A read appends to the octets left over. Nothing is read from a closed connection.
  function Feed(hs: Handlers, st: State, chunk: seq<byte>): State {
    if st.Dead? || st.closed then st else Process(hs, st.log, st.progress, st.rest + chunk, false)
  }

  function FeedAll(hs: Handlers, st: State, chunks: seq<seq<byte>>): State {
    if chunks == [] then st else Feed(hs, FeedAll(hs, st, chunks[..|chunks| - 1]), chunks[|chunks| - 1])
  }

  // No octet follows the head of a message that wants a body, or a message that closes the connection.
  predicate NothingBehind(hs: Handlers, log: seq<Message>, progress: Progress, s: seq<byte>)
    requires !progress.Body?
    decreases |s|
  {
    match FirstLine(s)
    case None => true
    case Some(line) =>
      match OnLine(hs, progress, line.text)
      case Threw(_) => true
      case Next(p) => NothingBehind(hs, log, p, line.rest)
      case AwaitBody(_, _) => line.rest == []
      case Handled(m) =>
        || hs.throws(log, m)
        || line.rest == []
        || (!hs.AsksToClose(m) && NothingBehind(hs, log + [m], Idle, line.rest))
  }

  // A read that brings `b` and then more: the octets before `b` have not yet told anything apart.
  lemma {:induction false} RunInTwoAndMore(hs: Handlers, log: seq<Message>, progress: Progress, a: seq<byte>,
                                           b: seq<byte>, more: seq<byte>)
    requires !progress.Body? && b != [] && NothingBehind(hs, log, progress, a + b)
    ensures NothingBehind(hs, log, progress, a)
    ensures Feed(hs, Run(hs, log, progress, a, false), b + more) == Run(hs, log, progress, a + (b + more), false)
    decreases |a|
  {
    hide OnLine, FirstLine, Handlers.AsksToClose;
    if FirstLine(a).Some? {
      FirstLineStable(a, b);
      FirstLineStable(a, b + more);
      var line := FirstLine(a).value;
      match OnLine(hs, progress, line.text)
      case Threw(_) =>
      case AwaitBody(_, _) =>
      case Next(p) => RunInTwoAndMore(hs, log, p, line.rest, b, more);
      case Handled(m) =>
        if !hs.throws(log, m) { RunInTwoAndMore(hs, log + [m], Idle, line.rest, b, more); }
    }
  }

  lemma RunInTwo(hs: Handlers, log: seq<Message>, progress: Progress, a: seq<byte>, b: seq<byte>)
    requires !progress.Body? && b != [] && NothingBehind(hs, log, progress, a + b)
    ensures NothingBehind(hs, log, progress, a)
    ensures Feed(hs, Run(hs, log, progress, a, false), b) == Run(hs, log, progress, a + b, false)
  {
    hide Run, NothingBehind, Feed;
    RunInTwoAndMore(hs, log, progress, a, b, []);
    assert b + [] == b;
  }

  predicate NoneEmpty(chunks: seq<seq<byte>>) {
    forall i :: 0 <= i < |chunks| ==> chunks[i] != []
  }

  lemma {:induction false} FeedIsRun(hs: Handlers, chunks: seq<seq<byte>>)
    requires NoneEmpty(chunks) && NothingBehind(hs, [], Idle, Concat(chunks))
    ensures FeedAll(hs, START, chunks) == Run(hs, [], Idle, Concat(chunks), false)
  {
    hide NothingBehind, OnLine;
    if chunks != [] {
      var a, b := Concat(chunks[..|chunks| - 1]), chunks[|chunks| - 1];
      RunInTwo(hs, [], Idle, a, b);
      FeedIsRun(hs, chunks[..|chunks| - 1]);
    }
  }

  // Octets leave a trace: a message handled, a message in progress, or something left over.
  lemma {:induction false} RunMoves(hs: Handlers, log: seq<Message>, progress: Progress, s: seq<byte>, closed: bool)
    requires !progress.Body?
    ensures var st := Run(hs, log, progress, s, closed);
            |log| <= |st.log| && (st.Open? && st.log == log && st.progress.Idle? ==> progress.Idle? && st.rest == s)
    decreases |s|
  {
    hide OnLine, FirstLine, Handlers.AsksToClose;
    if FirstLine(s).Some? {
      var line := FirstLine(s).value;
      match OnLine(hs, progress, line.text)
      case Threw(_) =>
      case AwaitBody(_, _) =>
      case Next(p) => RunMoves(hs, log, p, line.rest, closed);
      case Handled(m) => RunMoves(hs, log + [m], Idle, line.rest, closed || hs.AsksToClose(m));
    }
  }

  /** Where a read has to end to make a difference. */
  lemma {:induction false} TellingSplit(hs: Handlers, log: seq<Message>, progress: Progress, s: seq<byte>)
    returns (a: seq<byte>, b: seq<byte>)
    requires !progress.Body? && !NothingBehind(hs, log, progress, s)
    ensures s == a + b && a != [] && b != []
    ensures var st := Run(hs, log, progress, a, false); st.Open? && (st.closed || st.progress.Body?)
    ensures Feed(hs, Run(hs, log, progress, a, false), b) != Run(hs, log, progress, s, false)
    decreases |s|
  {
    hide OnLine, FirstLine, LineOctets, Handlers.AsksToClose, ReadBody;
    var line := FirstLine(s).value;
    var octets := LineOctets(s);
    match OnLine(hs, progress, line.text)
    case Threw(_) => assert false;
    case AwaitBody(m, length) =>
      a, b := octets, line.rest;
      assert FirstLine(a).value.rest + b == b;
      ReadBodyMoves(hs, log, m, length, b);
    case Next(p) =>
      a, b := TellingSplit(hs, log, p, line.rest);
      SameFirstLine(s, a);
      a := octets + a;
    case Handled(m) =>
      if hs.AsksToClose(m) {
        a, b := octets, line.rest;
        RunMoves(hs, log + [m], Idle, b, true);
      } else {
        a, b := TellingSplit(hs, log + [m], Idle, line.rest);
        SameFirstLine(s, a);
        a := octets + a;
      }
  }

  // No headers, and so no body and no wish to close.
  predicate Headerless(p: Progress) {
    p.Idle? || (p.Heading? && p.message.headers == [] && p.message.body == [] && p.lastHeader == [])
  }

  /** Without a colon there is never a header, and so neither a body to wait for nor a connection to close. */
  lemma {:induction false} RunWithoutColon(hs: Handlers, log: seq<Message>, progress: Progress, s: seq<byte>)
    requires !progress.Body? && Headerless(progress) && COLON !in s
    ensures var st := Run(hs, log, progress, s, false);
            st.Open? ==> !st.closed && !st.progress.Body? && Headerless(st.progress)
    decreases |s|
  {
    hide OnLine, FirstLine, LineOctets, Headerless, Handlers.AsksToClose;
    if FirstLine(s).Some? {
      var line := FirstLine(s).value;
      assert s == LineOctets(s) + line.rest;
      TextFromLine(s);
      OnLineWithoutColon(hs, progress, line.text);
      match OnLine(hs, progress, line.text)
      case Threw(_) =>
      case Next(p) => RunWithoutColon(hs, log, p, line.rest);
      case Handled(m) =>
        if !hs.throws(log, m) { RunWithoutColon(hs, log + [m], Idle, line.rest); }
    }
  }

  lemma TextFromLine(s: seq<byte>)
    requires FirstLine(s).Some?
    ensures forall c :: c in FirstLine(s).value.text ==> c in s
  {}

  lemma OnLineWithoutColon(hs: Handlers, progress: Progress, text: seq<byte>)
    requires Headerless(progress) && COLON !in text
    ensures match OnLine(hs, progress, text)
            case Threw(_) => true
            case Next(p) => Headerless(p)
            case Handled(m) => Headerless(Idle) && !hs.AsksToClose(m)
            case AwaitBody(_, _) => false
  {
    assert |CLOSE| == 5;
  }

  lemma ReadBodyMoves(hs: Handlers, log: seq<Message>, m: Message, length: int, s: seq<byte>)
    requires s != []
    ensures ReadBody(hs, log, m, length, s, false) != Open(log, Body(m, length), s, false)
  {}

  ghost predicate ReadSizesDoNotMatter(hs: Handlers, s: seq<byte>) {
    forall chunks ::
      NoneEmpty(chunks) && Concat(chunks) == s ==> FeedAll(hs, START, chunks) == Run(hs, [], Idle, s, false)
  }

  /**
   * Messages are the same however the octets arrive if and only if no octet follows the head of a message that wants a
   * body, or a message that closes the connection.
   */
  lemma ChunkIndependence(hs: Handlers, s: seq<byte>)
    ensures ReadSizesDoNotMatter(hs, s) <==> NothingBehind(hs, [], Idle, s)
  {
    hide Run, NothingBehind, OnLine, Process, Feed;
    if NothingBehind(hs, [], Idle, s) {
      forall chunks | NoneEmpty(chunks) && Concat(chunks) == s
        ensures FeedAll(hs, START, chunks) == Run(hs, [], Idle, s, false)
      {
        FeedIsRun(hs, chunks);
      }
    } else {
      var a, b := TellingSplit(hs, [], Idle, s);
      TwoReads(hs, a, b);
      assert NoneEmpty([a, b]);
    }
  }

  lemma TwoReads(hs: Handlers, a: seq<byte>, b: seq<byte>)
    ensures Concat([a, b]) == a + b
    ensures FeedAll(hs, START, [a, b]) == Feed(hs, Run(hs, [], Idle, a, false), b)
  {
    hide Run;
    var both, first, none: seq<seq<byte>> := [a, b], [a], [];
    assert both[..1] == first && first[..0] == none;
    assert Concat(none) + a == a && Concat(first) == a by { assert Concat(none) == []; }
    assert START.rest + a == a;
    assert FeedAll(hs, START, first) == Run(hs, [], Idle, a, false);
  }

  // ---------------------------------------------------------------- bodies

  // The body is as long as the headers say, or there is none.
  predicate BodyFits(hs: Handlers, m: Message) {
    hs.ContentLength(m.headers) == Known(|m.body|)
  }

  // What is true between reads of a message in progress.
  predicate InProgress(hs: Handlers, p: Progress) {
    match p
    case Idle => true
    case Heading(m, _) => m.body == []
    case Body(m, expected) => hs.ContentLength(m.headers) == Known(expected) && |m.body| != expected
  }

  predicate Sound(hs: Handlers, st: State) {
    && (forall m :: m in st.log ==> BodyFits(hs, m))
    && (st.Open? ==> InProgress(hs, st.progress))
  }

  lemma {:induction false} RunIsSound(hs: Handlers, log: seq<Message>, progress: Progress, s: seq<byte>, closed: bool)
    requires Sound(hs, Open(log, progress, s, closed)) && !progress.Body?
    ensures Sound(hs, Run(hs, log, progress, s, closed))
    decreases |s|
  {
    hide FirstLine, Handlers.AsksToClose, Handlers.Find, Handlers.ContentLength, ParsedField;
    if FirstLine(s).Some? {
      var line := FirstLine(s).value;
      match OnLine(hs, progress, line.text)
      case Threw(_) =>
      case AwaitBody(_, _) =>
      case Next(p) => RunIsSound(hs, log, p, line.rest, closed);
      case Handled(m) => RunIsSound(hs, log + [m], Idle, line.rest, closed || hs.AsksToClose(m));
    }
  }

  /** Whatever arrives, in whatever reads: every message handed over has the body that its headers announce. */
  lemma {:induction false} BodiesFit(hs: Handlers, chunks: seq<seq<byte>>)
    ensures Sound(hs, FeedAll(hs, START, chunks))
  {
    hide OnLine, Run;
    if chunks != [] {
      BodiesFit(hs, chunks[..|chunks| - 1]);
      var st := FeedAll(hs, START, chunks[..|chunks| - 1]);
      if st.Open? && !st.progress.Body? {
        RunIsSound(hs, st.log, st.progress, st.rest + chunks[|chunks| - 1], false);
      }
    }
  }
}
