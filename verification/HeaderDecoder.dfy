/** Header-block decoding: section 6 of RFC 7541. */
module HeaderDecoder {
  import opened Wrappers
  import opened Octets
  import opened Number
  import opened HuffmanEncoder
  import opened HpackString
  import opened HeaderTable

  // ---------------------------------------------------------------- what a block of octets means to the decoder

  // One representation read: a header or a size update, the table after it, and the octets that follow.
  datatype FieldResult =
    | Field(header: Option<Header>, table: Table, rest: seq<byte>)
    | Bad
    | Abort

  function Lookup(t: Table, index: nat): Option<Header> {
    if index < START then StaticGet(index)
    else if index - START < |t.entries| then Some(t.entries[index - START])
    else None
  }

  ghost function ReadIndexed(buf: seq<byte>, t: Table): FieldResult {
    match Read(buf, 7)
    case Malformed(_) => Bad
    case Value(exact, used) =>
      ReadUses(buf, 7);
      // The index is narrowed to 32 bits.
      match Lookup(t, exact % U64 % U32)
      case None => Bad
      case Some(h) => Field(Some(h), t, buf[used..])
  }

  // A literal header and what follows it.
  datatype LiteralResult = LiteralHeader(header: Header, rest: seq<byte>) | BadLiteral

  ghost function ReadLiteral(buf: seq<byte>, bits: nat, t: Table): LiteralResult {
    match Read(buf, bits)
    case Malformed(_) => BadLiteral
    case Value(exact, used) =>
      ReadUses(buf, bits);
      var index, rest := exact % U64, buf[used..];
      if index != 0 then
        match Lookup(t, index % U32)
        case None => BadLiteral
        case Some(h) =>
          match ReadString(rest)
          case Error(_) => BadLiteral
          case Ok(v) => LiteralHeader(h.(value := v.value, valueEncoded := v.encoded), v.rest)
      else
        match ReadString(rest)
        case Error(_) => BadLiteral
        case Ok(n) =>
          match ReadString(n.rest)
          case Error(_) => BadLiteral
          case Ok(v) => LiteralHeader(Header(n.value, v.value, n.encoded, v.encoded, false), v.rest)
  }

  ghost function ReadSizeUpdate(buf: seq<byte>, t: Table, assertions: bool): FieldResult {
    // The test is for 0x02 where the pattern's bit is 0x20.
    if buf == [] || buf[0] / 2 % 2 == 0 then Bad
    else
      match Read(buf, 5)
      case Malformed(_) => Bad
      case Value(exact, used) =>
        ReadUses(buf, 5);
        var n := exact % U64 % U32;
        if assertions && n < t.limit && TableSize(t.entries) > n then Abort
        else Field(None, ResizedHere(t, n), buf[used..])
  }

  ghost function ReadField(buf: seq<byte>, t: Table, assertions: bool): FieldResult
    requires buf != []
  {
    if buf[0] >= 0x80 then ReadIndexed(buf, t)
    else if buf[0] >= 0x40 then
      match ReadLiteral(buf, 6, t)
      case BadLiteral => Bad
      case LiteralHeader(h, rest) => Field(Some(h), Inserted(t, h), rest)
    else if buf[0] >= 0x20 then ReadSizeUpdate(buf, t, assertions)
    else
      match ReadLiteral(buf, 4, t)
      case BadLiteral => Bad
      case LiteralHeader(h, rest) =>
        Field(Some(if buf[0] >= 0x10 then h.(neverIndexed := true) else h), t, rest)
  }

  datatype BlockResult = Headers(headers: seq<Header>, table: Table) | BadBlock | AbortBlock

  function Push(h: Option<Header>, r: BlockResult): BlockResult {
    if r.Headers? && h.Some? then r.(headers := [h.value] + r.headers) else r
  }

  ghost function ReadBlock(buf: seq<byte>, t: Table, assertions: bool): BlockResult
    decreases |buf|
  {
    if buf == [] then Headers([], t)
    else
      match ReadField(buf, t, assertions)
      case Bad => BadBlock
      case Abort => AbortBlock
      case Field(h, t', rest) =>
        ReadFieldAdvances(buf, t, assertions);
        Push(h, ReadBlock(rest, t', assertions))
  }

  lemma ReadStringAdvances(buf: seq<byte>)
    ensures ReadString(buf).Ok? ==> |ReadString(buf).value.rest| < |buf|
  {
    ReadUses(buf, 7);
  }

  lemma ReadLiteralAdvances(buf: seq<byte>, bits: nat, t: Table)
    ensures ReadLiteral(buf, bits, t).LiteralHeader? ==> |ReadLiteral(buf, bits, t).rest| < |buf|
  {
    hide Read, ReadString;
    ReadUses(buf, bits);
    if Read(buf, bits).Value? {
      var rest := buf[Read(buf, bits).used..];
      ReadStringAdvances(rest);
      if ReadString(rest).Ok? {
        ReadStringAdvances(ReadString(rest).value.rest);
      }
    }
  }

  lemma ReadFieldAdvances(buf: seq<byte>, t: Table, assertions: bool)
    requires buf != []
    ensures ReadField(buf, t, assertions).Field? ==> |ReadField(buf, t, assertions).rest| < |buf|
  {
    hide Read, ReadLiteral, Lookup;
    ReadUses(buf, 7);
    ReadUses(buf, 5);
    ReadLiteralAdvances(buf, 6, t);
    ReadLiteralAdvances(buf, 4, t);
  }

  // ---------------------------------------------------------------- the decoder object

  datatype Outcome = Parsed(headers: seq<Header>) | Rejected | Aborted

  function Prepend(headers: seq<Header>, r: BlockResult): BlockResult {
    if r.Headers? then r.(headers := headers + r.headers) else r
  }

  class Decoder {
    const table: DynamicTable

    constructor (assertions: bool)
      ensures fresh(table) && table.assertions == assertions && table.Contents() == Table([], 4096)
    {
      table := new DynamicTable(assertions);
    }

    method Get(index: nat) returns (r: Option<Header>)
      ensures r == Lookup(table.Contents(), index)
    {
      if index < START {
        r := StaticGet(index);
      } else {
        r := table.Get(index);
      }
    }

    method DecodeIndexed(buf: Span) returns (r: Result<Header>)
      modifies buf
      ensures match ReadIndexed(old(buf.octets), table.Contents())
              case Field(h, _, rest) => r == Ok(h.value) && buf.octets == rest
              case _ => r.Error?
    {
      hide Read, Lookup;
      ReadUses(buf.octets, 7);
      var len, index := DecodeNumber(buf.octets, 7);
      if len < 1 {
        return Error("Failed to decode indexed header");
      }
      buf.Skip(len);
      var h := Get(index % U32);
      if h.None? {
        return Error("invalid index");
      }
      return Ok(h.value);
    }

    method DecodeLiteralIndexed(index: nat, buf: Span) returns (r: Result<Header>)
      modifies buf
      ensures match Lookup(table.Contents(), index)
              case None => r.Error?
              case Some(h) =>
                match ReadString(old(buf.octets))
                case Error(_) => r.Error?
                case Ok(v) => r == Ok(h.(value := v.value, valueEncoded := v.encoded)) && buf.octets == v.rest
    {
      hide ReadString, Lookup;
      var h := Get(index);
      if h.None? {
        return Error("invalid index");
      }
      var value := DecodeString(buf);
      if value.Error? {
        return Error(value.message);
      }
      return Ok(h.value.(value := value.value.0, valueEncoded := value.value.1));
    }

    method DecodeLiteral(buf: Span, lengthBits: nat) returns (r: Result<Header>)
      modifies buf
      ensures match ReadLiteral(old(buf.octets), lengthBits, table.Contents())
              case BadLiteral => r.Error?
              case LiteralHeader(h, rest) => r == Ok(h) && buf.octets == rest
    {
      hide ReadString, Lookup, Read;
      ReadUses(buf.octets, lengthBits);
      var len, index := DecodeNumber(buf.octets, lengthBits);
      if len < 1 {
        return Error("Failed to decode literal incremental header");
      }
      buf.Skip(len);
      if index != 0 {
        r := DecodeLiteralIndexed(index % U32, buf);
        return;
      }
      var name := DecodeString(buf);
      if name.Error? {
        return Error(name.message);
      }
      var value := DecodeString(buf);
      if value.Error? {
        return Error(value.message);
      }
      return Ok(Header(name.value.0, value.value.0, name.value.1, value.value.1, false));
    }

    method DecodeLiteralIncremental(buf: Span) returns (r: Result<Header>)
      modifies buf, table
      ensures match ReadLiteral(old(buf.octets), 6, old(table.Contents()))
              case BadLiteral => r.Error?
              case LiteralHeader(h, rest) =>
                r == Ok(h) && buf.octets == rest && table.Contents() == Inserted(old(table.Contents()), h)
    {
      hide ReadLiteral, Inserted;
      r := DecodeLiteral(buf, 6);
      if r.Ok? {
        table.Insert(r.value);
      }
    }

    method DecodeLiteralNeverIndexed(buf: Span) returns (r: Result<Header>)
      modifies buf
      ensures match ReadLiteral(old(buf.octets), 4, table.Contents())
              case BadLiteral => r.Error?
              case LiteralHeader(h, rest) => r == Ok(h.(neverIndexed := true)) && buf.octets == rest
    {
      hide ReadLiteral;
      r := DecodeLiteral(buf, 4);
      if r.Ok? {
        r := Ok(r.value.(neverIndexed := true));
      }
    }

    // None when an assertion aborts the program.
    method DynamicTableResize(buf: Span) returns (r: Option<Result<()>>)
      modifies buf, table
      ensures match ReadSizeUpdate(old(buf.octets), old(table.Contents()), table.assertions)
              case Field(_, t, rest) => r == Some(Ok(())) && buf.octets == rest && table.Contents() == t
              case Bad => r.Some? && r.value.Error?
              case Abort => r.None?
    {
      hide Read, ResizedHere, TableSize;
      if |buf.octets| == 0 || buf.octets[0] / 2 % 2 == 0 {
        return Some(Error("Not a dynamic table size update message"));
      }
      ReadUses(buf.octets, 5);
      var len, newSize := DecodeNumber(buf.octets, 5);
      if len < 1 {
        return Some(Error("Error decoding buffer resize message"));
      }
      buf.Skip(len);
      var completed := table.Resize(newSize % U32);
      return if completed then Some(Ok(())) else None;
    }

    // One turn of the parsing loop.
    method ParseField(buf: Span) returns (ok: bool, aborted: bool, header: Option<Header>)
      requires buf.octets != []
      modifies buf, table
      ensures match ReadField(old(buf.octets), old(table.Contents()), table.assertions)
              case Field(h, t, rest) => ok && header == h && table.Contents() == t && buf.octets == rest
              case Bad => !ok && !aborted
              case Abort => !ok && aborted
    {
      hide ReadIndexed, ReadLiteral, ReadSizeUpdate, Inserted;
      ok, aborted, header := false, false, None;
      var octet := buf.octets[0];
      var r: Result<Header>;
      if octet >= 0x80 {
        IndexedHasHeader(buf.octets, table.Contents());
        r := DecodeIndexed(buf);
      } else if octet / 0x40 % 2 == 1 {
        r := DecodeLiteralIncremental(buf);
      } else if octet / 0x20 % 2 == 1 {
        var resized := DynamicTableResize(buf);
        SizeUpdateHasNone(old(buf.octets), old(table.Contents()), table.assertions);
        return resized.Some? && resized.value.Ok?, resized.None?, None;
      } else if octet / 0x10 % 2 == 1 {
        r := DecodeLiteralNeverIndexed(buf);
      } else {
        r := DecodeLiteral(buf, 4);
      }
      if r.Ok? {
        return true, false, Some(r.value);
      }
    }

    method ParseHeaders(octets: seq<byte>) returns (r: Outcome)
      modifies table
      ensures match ReadBlock(octets, old(table.Contents()), table.assertions)
              case Headers(headers, t) => r == Parsed(headers) && table.Contents() == t
              case BadBlock => r == Rejected
              case AbortBlock => r == Aborted
    {
      hide ReadField, Push, Prepend;
      var buf := new Span(octets);
      var headers: seq<Header> := [];
      ghost var result := ReadBlock(octets, table.Contents(), table.assertions);
      PrependStep([], None, result);
      while buf.octets != []
        invariant fresh(buf)
        invariant result == Prepend(headers, ReadBlock(buf.octets, table.Contents(), table.assertions))
        decreases |buf.octets|
      {
        ReadFieldAdvances(buf.octets, table.Contents(), table.assertions);
        ghost var before := headers;
        var ok, aborted, h := ParseField(buf);
        if !ok {
          PrependStep(before, None, BadBlock);
          return if aborted then Aborted else Rejected;
        }
        if h.Some? {
          headers := headers + [h.value];
        }
        PrependStep(before, h, ReadBlock(buf.octets, table.Contents(), table.assertions));
      }
      PrependAll(headers, table.Contents());
      return Parsed(headers);
    }
  }

  // Headers go behind the ones before them, and a failure discards them all.
  lemma PrependStep(headers: seq<Header>, h: Option<Header>, r: BlockResult)
    ensures Prepend(headers, Push(h, r)) == Prepend(if h.Some? then headers + [h.value] else headers, r)
    ensures Prepend(headers, BadBlock) == BadBlock && Prepend(headers, AbortBlock) == AbortBlock
    ensures Prepend([], r) == r
  {
    if r.Headers? && h.Some? {
      assert headers + ([h.value] + r.headers) == headers + [h.value] + r.headers;
    }
  }

  lemma PrependAll(headers: seq<Header>, t: Table)
    ensures Prepend(headers, Headers([], t)) == Headers(headers, t)
  {
    assert headers + [] == headers;
  }

  lemma IndexedHasHeader(buf: seq<byte>, t: Table)
    ensures match ReadIndexed(buf, t)
            case Field(h, t', _) => h.Some? && t' == t
            case r => r == Bad
  {
    hide Read;
  }

  lemma SizeUpdateHasNone(buf: seq<byte>, t: Table, assertions: bool)
    ensures ReadSizeUpdate(buf, t, assertions).Field? ==> ReadSizeUpdate(buf, t, assertions).header.None?
  {
    hide Read;
  }
}
