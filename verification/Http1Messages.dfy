/** Printed HTTP/1 messages, and what the reader makes of them. */
module Http1Messages {
  import opened Wrappers
  import opened Octets
  import opened Http1Text
  import opened Http1Reader

  // ---------------------------------------------------------------- printing

  const DATE: seq<byte> := Ascii("date")
  const SERVER: seq<byte> := Ascii("server")
  const PRODUCT: seq<byte> := Ascii("Shitty")

  function FieldsWire(fields: seq<Field>): seq<byte> {
    if fields == [] then [] else FieldLine(fields[0]) + CRLF + FieldsWire(fields[1..])
  }

  lemma {:induction false} FieldsWireAppend(fields: seq<Field>, f: Field)
    ensures FieldsWire(fields + [f]) == FieldsWire(fields) + (FieldLine(f) + CRLF)
  {
    hide FieldLine;
    if fields == [] {
      assert [f][1..] == [];
    } else {
      FieldsWireAppend(fields[1..], f);
      assert (fields + [f])[1..] == fields[1..] + [f];
    }
  }

  method RenderHeaders(fields: seq<Field>) returns (s: seq<byte>)
    ensures s == FieldsWire(fields) + CRLF
  {
    s := [];
    for i := 0 to |fields|
      invariant s == FieldsWire(fields[..i])
    {
      FieldsWireAppend(fields[..i], fields[i]);
      assert fields[..i + 1] == fields[..i] + [fields[i]];
      s := s + (fields[i].name + [COLON, SP] + fields[i].value + CRLF);
    }
    assert fields[..|fields|] == fields;
    s := s + CRLF;
  }

  // A header that is set unless there is one of its name, in any case.
  function WithDefault(fields: seq<Field>, name: seq<byte>, value: seq<byte>): seq<Field> {
    if exists f :: f in fields && Lower(f.name) == name then fields else fields + [Field(name, value)]
  }

  // The headers that a message goes out with.
  function Outgoing(fields: seq<Field>, date: seq<byte>, bodyLength: nat): seq<Field> {
    WithDefault(WithDefault(WithDefault(fields, DATE, date), SERVER, PRODUCT), CONTENT_LENGTH, Decimal(bodyLength))
  }

  function Head(m: Message): seq<byte> {
    m.firstLine + CRLF + (FieldsWire(m.headers) + CRLF)
  }

  // The headers leave in the order that the hash map has them.
  method SendMessage(m: Message, date: seq<byte>, arrange: seq<Field> -> seq<Field>)
    returns (octets: seq<byte>, sent: Message)
    requires forall hs :: multiset(arrange(hs)) == multiset(hs)
    ensures octets == Head(sent) + m.body
    ensures sent.firstLine == m.firstLine && sent.body == m.body
    ensures multiset(sent.headers) == multiset(Outgoing(m.headers, date, |m.body|))
  {
    var fields := arrange(Outgoing(m.headers, date, |m.body|));
    var rendered := RenderHeaders(fields);
    sent := m.(headers := fields);
    octets := m.firstLine + CRLF + rendered + m.body;
  }

  // ---------------------------------------------------------------- reading what was printed

  // Headers that are read as they were printed.
  predicate Printable(f: Field) {
    && Lower(f.name) == f.name && COLON !in f.name && NL !in f.name && (f.name == [] || !IsLWS(f.name[0]))
    && Bare(f.value) && NL !in f.value
  }

  predicate WellFormed(hs: Handlers, m: Message) {
    && NL !in m.firstLine
    && (forall f :: f in m.headers ==> Printable(f))
    && BodyFits(hs, m)
  }

  lemma FieldIsRead(hs: Handlers, m: Message, lastHeader: seq<byte>, f: Field, tail: seq<byte>)
    requires Printable(f)
    ensures FirstLine(FieldLine(f) + CRLF + tail) == Some(Line(FieldLine(f), tail))
    ensures OnLine(hs, Heading(m, lastHeader), FieldLine(f))
            == Next(Heading(m.(headers := m.headers + [f]), f.name))
  {
    hide FirstLine, ParsedField, Lower, Bare;
    LineRoundTrip(FieldLine(f), tail);
    FieldRoundTrip(f);
    assert FieldLine(f)[0] == if f.name == [] then COLON else f.name[0];
  }

  lemma FieldRuns(hs: Handlers, log: seq<Message>, m: Message, lastHeader: seq<byte>, f: Field, rest: seq<byte>,
                  closed: bool)
    requires Printable(f)
    ensures var s, longer := FieldLine(f) + CRLF + rest, m.(headers := m.headers + [f]);
            && Run(hs, log, Heading(m, lastHeader), s, closed) == Run(hs, log, Heading(longer, f.name), rest, closed)
            && NothingBehind(hs, log, Heading(m, lastHeader), s)
               == NothingBehind(hs, log, Heading(longer, f.name), rest)
  {
    hide FieldLine, FirstLine, OnLine, Printable;
    FieldIsRead(hs, m, lastHeader, f, rest);
  }

  // Reading headers takes their octets and adds them to the message.
  lemma {:induction false} FieldsAreRead(hs: Handlers, log: seq<Message>, m: Message, lastHeader: seq<byte>,
                                        fields: seq<Field>, tail: seq<byte>, closed: bool)
    returns (last: seq<byte>)
    requires forall f :: f in fields ==> Printable(f)
    ensures Run(hs, log, Heading(m, lastHeader), FieldsWire(fields) + tail, closed)
            == Run(hs, log, Heading(m.(headers := m.headers + fields), last), tail, closed)
    ensures NothingBehind(hs, log, Heading(m, lastHeader), FieldsWire(fields) + tail)
            == NothingBehind(hs, log, Heading(m.(headers := m.headers + fields), last), tail)
    decreases |fields|
  {
    hide FieldLine, Printable, Run, NothingBehind;
    if fields == [] {
      assert [] + tail == tail && m.headers + fields == m.headers;
      last := lastHeader;
    } else {
      var f, others := fields[0], fields[1..];
      var rest := FieldsWire(others) + tail;
      assert FieldsWire(fields) + tail == FieldLine(f) + CRLF + rest;
      FieldRuns(hs, log, m, lastHeader, f, rest, closed);
      var longer := m.(headers := m.headers + [f]);
      last := FieldsAreRead(hs, log, longer, f.name, others, tail, closed);
      assert m.headers + [f] + others == m.headers + fields;
    }
  }

  // Behind its head, a message wants its body, or is handled if it has none.
  lemma HeadIsRead(hs: Handlers, log: seq<Message>, m: Message, tail: seq<byte>)
    requires WellFormed(hs, m)
    ensures Run(hs, log, Idle, Head(m) + tail, false)
            == if m.body != [] then Open(log, Body(m.(body := []), |m.body|), tail, false)
               else var st := Handle(hs, log, m, tail, false);
                    if st.Dead? then st else Run(hs, st.log, Idle, tail, st.closed)
    ensures m.body == [] ==>
              (NothingBehind(hs, log, Idle, Head(m) + tail)
               <==> hs.throws(log, m) || tail == [] || (!hs.AsksToClose(m) && NothingBehind(hs, log + [m], Idle, tail)))
    ensures m.body != [] ==> (NothingBehind(hs, log, Idle, Head(m) + tail) <==> tail == [])
  {
    hide FirstLine, Printable, FieldsWire, Handlers.ContentLength, Handlers.AsksToClose;
    var wire := FieldsWire(m.headers);
    assert Head(m) + tail == m.firstLine + CRLF + (wire + (CRLF + tail));
    LineRoundTrip(m.firstLine, wire + (CRLF + tail));
    var bare := Message(m.firstLine, [], []);
    var last := FieldsAreRead(hs, log, bare, [], m.headers, CRLF + tail, false);
    assert bare.headers + m.headers == m.headers;
    LineRoundTrip([], tail);
    assert [] + CRLF + tail == CRLF + tail;
  }

  // ---------------------------------------------------------------- heads of all kinds

  /** Behind any head that can be read, what its headers announce decides. */
  lemma HeadLeads(hs: Handlers, log: seq<Message>, m: Message, tail: seq<byte>)
    requires NL !in m.firstLine && (forall f :: f in m.headers ==> Printable(f))
    ensures var a, st := hs.ContentLength(m.headers), Handle(hs, log, m.(body := []), tail, false);
            Run(hs, log, Idle, Head(m) + tail, false)
            == if a.Unreadable? then Dead(log, a.cause)
               else if a.length != 0 then Open(log, Body(m.(body := []), a.length), tail, false)
               else if st.Dead? then st
               else Run(hs, st.log, Idle, tail, st.closed)
  {
    hide FirstLine, Printable, FieldsWire, Handlers.ContentLength, Handlers.AsksToClose;
    var wire := FieldsWire(m.headers);
    assert Head(m) + tail == m.firstLine + CRLF + (wire + (CRLF + tail));
    LineRoundTrip(m.firstLine, wire + (CRLF + tail));
    var bare := Message(m.firstLine, [], []);
    var last := FieldsAreRead(hs, log, bare, [], m.headers, CRLF + tail, false);
    assert bare.headers + m.headers == m.headers;
    LineRoundTrip([], tail);
    assert [] + CRLF + tail == CRLF + tail;
  }

  /** A message in chunks is never handed over: the next read ends the connection. */
  lemma ChunkedNeverArrives(hs: Handlers, log: seq<Message>, m: Message, tail: seq<byte>, chunk: seq<byte>)
    requires NL !in m.firstLine && (forall f :: f in m.headers ==> Printable(f)) && chunk != []
    requires Names(m.headers, "transfer-encoding") && !Names(m.headers, "content-length")
    ensures Feed(hs, Feed(hs, Open(log, Idle, [], false), Head(m) + tail), chunk) == Dead(log, ChunkedBody)
  {
    hide Head, Run, Printable, Names, Handlers.ContentLength, Handlers.AsksToClose;
    NoLengthMeans(hs, m.headers);
    HeadLeads(hs, log, m, tail);
    assert [] + (Head(m) + tail) == Head(m) + tail;
  }

  /** A length that is no number, or too big, ends the connection where the head does. */
  lemma BadLengthEnds(hs: Handlers, log: seq<Message>, m: Message, tail: seq<byte>, value: seq<byte>)
    requires NL !in m.firstLine && (forall f :: f in m.headers ==> Printable(f))
    requires Names(m.headers, "content-length") && AllSay(m.headers, "content-length", value)
    ensures Stoul(value).None? ==> Run(hs, log, Idle, Head(m) + tail, false) == Dead(log, InvalidLength)
    ensures Stoul(value).Some? && Stoul(value).value > SSIZE_MAX ==>
              Run(hs, log, Idle, Head(m) + tail, false) == Dead(log, LengthTooBig)
  {
    hide Head, Run, Printable, Names, AllSay, Stoul, Handlers.ContentLength, Handlers.AsksToClose;
    LengthMeans(hs, m.headers, value);
    HeadLeads(hs, log, m, tail);
  }

  /** A header line without colon ends the connection, and so does a folded line with nothing before it. */
  lemma BadLinesEnd(hs: Handlers, log: seq<Message>, m: Message, lastHeader: seq<byte>, text: seq<byte>,
                    tail: seq<byte>)
    requires 10 !in text && text != []
    ensures text[0] !in {32, 9} && 58 !in text ==>
              Run(hs, log, Heading(m, lastHeader), text + CRLF + tail, false) == Dead(log, NoColon)
    ensures text[0] in {32, 9} ==>
              Run(hs, log, Heading(Message(m.firstLine, [], []), []), text + CRLF + tail, false)
              == Dead(log, NothingToContinue)
  {
    hide FirstLine, Lower, Trimmed;
    LineRoundTrip(text, tail);
    if 58 !in text { FindNothing(text, COLON, 0); }
  }

  /** A length is announced in whatever case its name is spelled. */
  lemma LengthInAnyCase(hs: Handlers, log: seq<Message>, first: seq<byte>, name: seq<byte>, n: nat, tail: seq<byte>)
    requires 10 !in first && SameButCase(name, Ascii("content-length")) && 0 < n <= SSIZE_MAX
    ensures var length := Field(Ascii("content-length"), Decimal(n));
            Run(hs, log, Idle, first + CRLF + (name + [58, 32] + Decimal(n) + CRLF + (CRLF + tail)), false)
            == Open(log, Body(Message(first, [length], []), n), tail, false)
  {
    hide FirstLine, Decimal, Stoul, ParsedField, Lower, Handlers.ContentLength, SameButCase, Find, Trimmed;
    var text, rest := name + [58, 32] + Decimal(n), CRLF + tail;
    var length := Field(Ascii("content-length"), Decimal(n));
    LengthLine(name, n);
    LineRoundTrip(first, text + CRLF + rest);
    LineRoundTrip(text, rest);
    LineRoundTrip([], tail);
    assert [] + CRLF + tail == rest;
    var bare, whole := Message(first, [], []), Message(first, [length], []);
    assert bare.headers + [length] == [length];
    LengthReads(n);
    assert length in [length];
    LengthMeans(hs, [length], Decimal(n));
    assert Run(hs, log, Idle, first + CRLF + (text + CRLF + rest), false)
           == Run(hs, log, Heading(bare, []), text + CRLF + rest, false);
    assert OnLine(hs, Heading(bare, []), text) == Next(Heading(whole, length.name));
    assert Run(hs, log, Heading(whole, length.name), rest, false) == Open(log, Body(whole, n), tail, false);
  }

  lemma LengthLine(name: seq<byte>, n: nat)
    requires SameButCase(name, Ascii("content-length"))
    ensures var text := name + [58, 32] + Decimal(n);
            && NL !in text && text != [] && !IsLWS(text[0])
            && ParsedField(text) == Some(Field(Ascii("content-length"), Decimal(n)))
  {
    hide Decimal, Lower, Trimmed;
    NamesSpelled();
    LowersLetters(name, CONTENT_LENGTH);
    LowerFixed(CONTENT_LENGTH);
    DecimalIsBare(n);
    FieldSplit(name, [SP] + Decimal(n));
    assert name + [58, 32] + Decimal(n) == name + [COLON] + ([SP] + Decimal(n));
    TrimmedIsBare(Decimal(n));
    assert name[0] == 99 || name[0] == 67;
  }

  // Every length that the sender names is the body's.
  predicate NamesTheLength(fields: seq<Field>, n: nat) {
    forall f :: f in fields && f.name == CONTENT_LENGTH ==> Stoul(f.value) == Some(n)
  }

  lemma OutgoingNamesIt(fields: seq<Field>, date: seq<byte>, n: nat)
    requires forall f :: f in fields ==> Lower(f.name) == f.name
    requires n < U64
    ensures NamesTheLength(Outgoing(fields, date, n), n) <==> NamesTheLength(fields, n)
    ensures exists f :: f in Outgoing(fields, date, n) && f.name == CONTENT_LENGTH
  {
    hide Lower, Decimal, Stoul;
    assert |DATE| == 4 && |SERVER| == 6 && |CONTENT_LENGTH| == 14;
    var before := WithDefault(WithDefault(fields, DATE, date), SERVER, PRODUCT);
    var length := Field(CONTENT_LENGTH, Decimal(n));
    LengthReads(n);
    assert forall f :: f in before && f.name == CONTENT_LENGTH ==> f in fields;
    assert forall f :: f in fields ==> f in before;
    if forall f :: f in before ==> Lower(f.name) != CONTENT_LENGTH {
      assert Outgoing(fields, date, n) == before + [length];
      assert length in Outgoing(fields, date, n);
      assert forall f :: f in fields ==> Lower(f.name) != CONTENT_LENGTH;
    } else {
      var g :| g in before && Lower(g.name) == CONTENT_LENGTH;
      assert Outgoing(fields, date, n) == before;
      assert g in fields;
    }
  }

  /** The length is read as the body's, whatever the hash map finds, if and only if the sender names no other. */
  lemma LengthFitsExactly(fields: seq<Field>, date: seq<byte>, sent: seq<Field>, n: nat)
    requires forall f :: f in fields ==> Lower(f.name) == f.name
    requires multiset(sent) == multiset(Outgoing(fields, date, n)) && n <= SSIZE_MAX
    ensures (forall pick, throws :: Handlers(pick, throws).ContentLength(sent) == Known(n))
            <==> NamesTheLength(fields, n)
  {
    hide Lower, Decimal, Stoul, Outgoing;
    OutgoingNamesIt(fields, date, n);
    assert forall f :: f in sent <==> f in multiset(sent);
    assert forall f :: f in sent <==> f in Outgoing(fields, date, n);
    if NamesTheLength(sent, n) {
      var g :| g in sent && g.name == CONTENT_LENGTH;
      forall pick, throws ensures Handlers(pick, throws).ContentLength(sent) == Known(n) {
        var i := Handlers(pick, throws).Find(sent, CONTENT_LENGTH);
        assert i.Some? && sent[i.value] in sent;
      }
    } else {
      var i :| 0 <= i < |sent| && sent[i].name == CONTENT_LENGTH && Stoul(sent[i].value) != Some(n);
      var hs := Handlers((_, _) => i, (_, _) => false);
      assert hs.Find(sent, CONTENT_LENGTH) == Some(i);
      assert hs.ContentLength(sent) != Known(n);
    }
  }

  // What a caller has to give for a message that can be read back.
  predicate Sendable(m: Message, date: seq<byte>) {
    && NL !in m.firstLine && NL !in date && Bare(date) && |m.body| <= SSIZE_MAX
    && (forall f :: f in m.headers ==> Printable(f))
    && NamesTheLength(m.headers, |m.body|)
  }

  predicate Has(fields: seq<Field>, name: string) {
    exists f :: f in fields && SameButCase(f.name, Ascii(name))
  }

  // A header of this name, if there is none in any case.
  function Missing(fields: seq<Field>, name: string, value: seq<byte>): seq<Field> {
    if Has(fields, name) then [] else [Field(Ascii(name), value)]
  }

  lemma DefaultIsMissing(fields: seq<Field>, name: string, value: seq<byte>)
    requires Lower(Ascii(name)) == Ascii(name)
    ensures WithDefault(fields, Ascii(name), value) == fields + Missing(fields, name, value)
  {
    hide Lower, Ascii, SameButCase;
    forall f | f in fields ensures Lower(f.name) == Ascii(name) <==> SameButCase(f.name, Ascii(name)) {
      LowersLetters(f.name, Ascii(name));
    }
  }

  lemma OtherNameHelps(fields: seq<Field>, name: string, more: seq<Field>)
    requires forall f :: f in more ==> |f.name| != |Ascii(name)|
    ensures Has(fields + more, name) <==> Has(fields, name)
  {
    hide Ascii;
  }

  /** A message leaves with its own headers and with a date, a server and a length where it has none, in any case. */
  lemma DefaultsAdded(fields: seq<Field>, date: seq<byte>, n: nat)
    ensures Outgoing(fields, date, n)
            == fields + Missing(fields, "date", date) + Missing(fields, "server", Ascii("Shitty"))
               + Missing(fields, "content-length", Decimal(n))
  {
    hide Lower, Ascii, Decimal, WithDefault, Has;
    assert |Ascii("date")| == 4 && |Ascii("server")| == 6 && |Ascii("content-length")| == 14 by { NameLengths(); }
    NamesAreFixed();
    var d := Missing(fields, "date", date);
    var s := Missing(fields, "server", Ascii("Shitty"));
    DefaultIsMissing(fields, "date", date);
    OtherNameHelps(fields, "server", d);
    DefaultIsMissing(fields + d, "server", Ascii("Shitty"));
    OtherNameHelps(fields, "content-length", d + s);
    assert fields + (d + s) == fields + d + s;
    DefaultIsMissing(fields + d + s, "content-length", Decimal(n));
  }

  lemma NameLengths()
    ensures |Ascii("date")| == 4 && |Ascii("server")| == 6 && |Ascii("content-length")| == 14
  {}

  lemma NamesAreFixed()
    ensures Lower(DATE) == DATE && Lower(SERVER) == SERVER && Lower(CONTENT_LENGTH) == CONTENT_LENGTH
  {
    NamesSpelled();
    LowerFixed(DATE);
    LowerFixed(SERVER);
    LowerFixed(CONTENT_LENGTH);
  }

  lemma {:induction false} LowerFixed(s: seq<byte>)
    requires forall i :: 0 <= i < |s| ==> !(65 <= s[i] <= 90)
    ensures Lower(s) == s
  {}

  lemma DefaultsArePrintable(date: seq<byte>, n: nat)
    requires NL !in date && Bare(date)
    ensures Printable(Field(DATE, date)) && Printable(Field(SERVER, PRODUCT))
    ensures Printable(Field(CONTENT_LENGTH, Decimal(n)))
  {
    hide Printable, Decimal, Bare;
    NamesSpelled();
    DecimalIsBare(n);
    LowerNamePrints(Field(DATE, date));
    assert Bare(PRODUCT) by { ProductIsBare(); }
    LowerNamePrints(Field(SERVER, PRODUCT));
    LowerNamePrints(Field(CONTENT_LENGTH, Decimal(n)));
  }

  lemma DecimalIsBare(n: nat)
    ensures Bare(Decimal(n)) && NL !in Decimal(n)
  {
    hide Decimal;
    var s := Decimal(n);
    assert IsDigit(s[0]) && IsDigit(s[|s| - 1]);
  }

  lemma ProductIsBare()
    ensures Bare(PRODUCT)
  {}

  lemma LowerNamePrints(f: Field)
    requires forall i :: 0 <= i < |f.name| ==> 97 <= f.name[i] <= 122 || f.name[i] == 45
    requires NL !in f.value && Bare(f.value)
    ensures Printable(f)
  {
    hide Lower, Bare;
    LowerFixed(f.name);
  }

  lemma NamesSpelled()
    ensures DATE == [100, 97, 116, 101] && SERVER == [115, 101, 114, 118, 101, 114]
    ensures PRODUCT == [83, 104, 105, 116, 116, 121]
    ensures CONTENT_LENGTH == [99, 111, 110, 116, 101, 110, 116, 45, 108, 101, 110, 103, 116, 104]
  {}

  /** What leaves for a message that can be sent is well-formed, in whatever order its headers leave. */
  lemma SentIsWellFormed(hs: Handlers, m: Message, date: seq<byte>, sent: Message)
    requires Sendable(m, date)
    requires sent.firstLine == m.firstLine && sent.body == m.body
    requires multiset(sent.headers) == multiset(Outgoing(m.headers, date, |m.body|))
    ensures WellFormed(hs, sent)
  {
    hide Printable, Handlers.ContentLength, Bare, Decimal, Outgoing, Lower;
    DefaultsArePrintable(date, |m.body|);
    NamesAreLower(m.headers);
    LengthFitsExactly(m.headers, date, sent.headers, |m.body|);
    assert Handlers(hs.pick, hs.throws) == hs;
    forall f | f in sent.headers ensures Printable(f) {
      assert f in multiset(sent.headers);
      OutgoingFields(m.headers, date, |m.body|, f);
    }
  }

  lemma OutgoingFields(fields: seq<Field>, date: seq<byte>, n: nat, f: Field)
    requires f in Outgoing(fields, date, n)
    ensures f in fields || f in {Field(DATE, date), Field(SERVER, PRODUCT), Field(CONTENT_LENGTH, Decimal(n))}
  {}

  lemma NamesAreLower(fields: seq<Field>)
    requires forall f :: f in fields ==> Printable(f)
    ensures forall f :: f in fields ==> Lower(f.name) == f.name
  {}
}
