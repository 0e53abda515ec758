/** What single octets of a header block stand for: the static table of RFC 7541, Appendix A, and the newest entries. */
module StaticRows {
  import opened Wrappers
  import opened Octets
  import opened Number
  import opened HpackString
  import opened HeaderTable
  import opened HeaderDecoder
  import opened HeaderBlock

  // The octet `x` is a header block of its own, with this header.
  ghost predicate Stands(x: byte, name: string, value: string, t: Table, assertions: bool) {
    ReadBlock([x], t, assertions) == Headers([Header(Ascii(name), Ascii(value), [], [], false)], t)
  }

  /** An octet from 0x81 on is the header at the index in its low seven bits. */
  lemma OneOctet(i: nat, t: Table, assertions: bool)
    requires 0 < i < 127 && Lookup(t, i).Some?
    ensures ReadBlock([0x80 + i], t, assertions) == Headers([Lookup(t, i).value], t)
  {
    hide Lookup, Mask;
    var x := 0x80 + i;
    assert Mask(x, 7) == i by {
      ShrMaskUnique(1, i, 7);
      ShlValues(1);
      Pow2Values();
    }
    Pow2Values();
    assert Read([x], 7) == Value(i, 1);
    assert ReadField([x], t, assertions) == Field(Some(Lookup(t, i).value), t, [x][1..]);
    assert [x][1..] == [];
    assert [Lookup(t, i).value] + [] == [Lookup(t, i).value];
  }

  lemma StaticOctet(i: nat, t: Table, assertions: bool)
    requires 0 < i < 62
    ensures Stands(0x80 + i, StaticRow(i).0, StaticRow(i).1, t, assertions)
  {
    hide StaticRow, ReadBlock, Ascii;
    OneOctet(i, t, assertions);
  }

  lemma Octets81To8A(t: Table, assertions: bool)
    ensures Stands(0x81, ":authority", "", t, assertions)
    ensures Stands(0x82, ":method", "GET", t, assertions)
    ensures Stands(0x83, ":method", "POST", t, assertions)
    ensures Stands(0x84, ":path", "/", t, assertions)
    ensures Stands(0x85, ":path", "/index.html", t, assertions)
    ensures Stands(0x86, ":scheme", "http", t, assertions)
    ensures Stands(0x87, ":scheme", "https", t, assertions)
    ensures Stands(0x88, ":status", "200", t, assertions)
    ensures Stands(0x89, ":status", "204", t, assertions)
    ensures Stands(0x8a, ":status", "206", t, assertions)
  {
    hide Stands;
    StaticOctet(1, t, assertions);
    StaticOctet(2, t, assertions);
    StaticOctet(3, t, assertions);
    StaticOctet(4, t, assertions);
    StaticOctet(5, t, assertions);
    StaticOctet(6, t, assertions);
    StaticOctet(7, t, assertions);
    StaticOctet(8, t, assertions);
    StaticOctet(9, t, assertions);
    StaticOctet(10, t, assertions);
  }

  lemma Octets8BTo94(t: Table, assertions: bool)
    ensures Stands(0x8b, ":status", "304", t, assertions)
    ensures Stands(0x8c, ":status", "400", t, assertions)
    ensures Stands(0x8d, ":status", "404", t, assertions)
    ensures Stands(0x8e, ":status", "500", t, assertions)
    ensures Stands(0x8f, "accept-charset", "", t, assertions)
    ensures Stands(0x90, "accept-encoding", "gzip, deflate", t, assertions)
    ensures Stands(0x91, "accept-language", "", t, assertions)
    ensures Stands(0x92, "accept-ranges", "", t, assertions)
    ensures Stands(0x93, "accept", "", t, assertions)
    ensures Stands(0x94, "access-control-allow-origin", "", t, assertions)
  {
    hide Stands;
    StaticOctet(11, t, assertions);
    StaticOctet(12, t, assertions);
    StaticOctet(13, t, assertions);
    StaticOctet(14, t, assertions);
    StaticOctet(15, t, assertions);
    StaticOctet(16, t, assertions);
    StaticOctet(17, t, assertions);
    StaticOctet(18, t, assertions);
    StaticOctet(19, t, assertions);
    StaticOctet(20, t, assertions);
  }

  lemma Octets95To9E(t: Table, assertions: bool)
    ensures Stands(0x95, "age", "", t, assertions)
    ensures Stands(0x96, "allow", "", t, assertions)
    ensures Stands(0x97, "authorization", "", t, assertions)
    ensures Stands(0x98, "cache-control", "", t, assertions)
    ensures Stands(0x99, "content-disposition", "", t, assertions)
    ensures Stands(0x9a, "content-encoding", "", t, assertions)
    ensures Stands(0x9b, "content-language", "", t, assertions)
    ensures Stands(0x9c, "content-length", "", t, assertions)
    ensures Stands(0x9d, "content-location", "", t, assertions)
    ensures Stands(0x9e, "content-range", "", t, assertions)
  {
    hide Stands;
    StaticOctet(21, t, assertions);
    StaticOctet(22, t, assertions);
    StaticOctet(23, t, assertions);
    StaticOctet(24, t, assertions);
    StaticOctet(25, t, assertions);
    StaticOctet(26, t, assertions);
    StaticOctet(27, t, assertions);
    StaticOctet(28, t, assertions);
    StaticOctet(29, t, assertions);
    StaticOctet(30, t, assertions);
  }

  lemma Octets9FToA8(t: Table, assertions: bool)
    ensures Stands(0x9f, "content-type", "", t, assertions)
    ensures Stands(0xa0, "cookie", "", t, assertions)
    ensures Stands(0xa1, "date", "", t, assertions)
    ensures Stands(0xa2, "etag", "", t, assertions)
    ensures Stands(0xa3, "expect", "", t, assertions)
    ensures Stands(0xa4, "expires", "", t, assertions)
    ensures Stands(0xa5, "from", "", t, assertions)
    ensures Stands(0xa6, "host", "", t, assertions)
    ensures Stands(0xa7, "if-match", "", t, assertions)
    ensures Stands(0xa8, "if-modified-since", "", t, assertions)
  {
    hide Stands;
    StaticOctet(31, t, assertions);
    StaticOctet(32, t, assertions);
    StaticOctet(33, t, assertions);
    StaticOctet(34, t, assertions);
    StaticOctet(35, t, assertions);
    StaticOctet(36, t, assertions);
    StaticOctet(37, t, assertions);
    StaticOctet(38, t, assertions);
    StaticOctet(39, t, assertions);
    StaticOctet(40, t, assertions);
  }

  lemma OctetsA9ToB2(t: Table, assertions: bool)
    ensures Stands(0xa9, "if-none-match", "", t, assertions)
    ensures Stands(0xaa, "if-range", "", t, assertions)
    ensures Stands(0xab, "if-unmodified-since", "", t, assertions)
    ensures Stands(0xac, "last-modified", "", t, assertions)
    ensures Stands(0xad, "link", "", t, assertions)
    ensures Stands(0xae, "location", "", t, assertions)
    ensures Stands(0xaf, "max-forwards", "", t, assertions)
    ensures Stands(0xb0, "proxy-authenticate", "", t, assertions)
    ensures Stands(0xb1, "proxy-authorization", "", t, assertions)
    ensures Stands(0xb2, "range", "", t, assertions)
  {
    hide Stands;
    StaticOctet(41, t, assertions);
    StaticOctet(42, t, assertions);
    StaticOctet(43, t, assertions);
    StaticOctet(44, t, assertions);
    StaticOctet(45, t, assertions);
    StaticOctet(46, t, assertions);
    StaticOctet(47, t, assertions);
    StaticOctet(48, t, assertions);
    StaticOctet(49, t, assertions);
    StaticOctet(50, t, assertions);
  }

  lemma OctetsB3ToBD(t: Table, assertions: bool)
    ensures Stands(0xb3, "referer", "", t, assertions)
    ensures Stands(0xb4, "refresh", "", t, assertions)
    ensures Stands(0xb5, "retry-after", "", t, assertions)
    ensures Stands(0xb6, "server", "", t, assertions)
    ensures Stands(0xb7, "set-cookie", "", t, assertions)
    ensures Stands(0xb8, "strict-transport-security", "", t, assertions)
    ensures Stands(0xb9, "transfer-encoding", "", t, assertions)
    ensures Stands(0xba, "user-agent", "", t, assertions)
    ensures Stands(0xbb, "vary", "", t, assertions)
    ensures Stands(0xbc, "via", "", t, assertions)
    ensures Stands(0xbd, "www-authenticate", "", t, assertions)
  {
    hide Stands;
    StaticOctet(51, t, assertions);
    StaticOctet(52, t, assertions);
    StaticOctet(53, t, assertions);
    StaticOctet(54, t, assertions);
    StaticOctet(55, t, assertions);
    StaticOctet(56, t, assertions);
    StaticOctet(57, t, assertions);
    StaticOctet(58, t, assertions);
    StaticOctet(59, t, assertions);
    StaticOctet(60, t, assertions);
    StaticOctet(61, t, assertions);
  }

  /** An octet from 0xbe on is an entry of the dynamic table, the newest first. */
  lemma DynamicOctets(k: nat, t: Table, assertions: bool)
    requires k < |t.entries| && k < 65
    ensures ReadBlock([0xbe + k], t, assertions) == Headers([t.entries[k]], t)
  {
    hide ReadBlock;
    OneOctet(62 + k, t, assertions);
  }

  /** A literal with an indexed name has that name and its own value. */
  lemma NameFromRow(kind: Kind, i: nat, value: StringLiteral, t: Table, tail: seq<byte>, assertions: bool)
    requires 0 < i < 62 && SendableString(value) && Sound(t)
    ensures var f := ReadField(Wire(Literal(kind, ByIndex(i), value)) + tail, t, assertions);
            && f.Field? && f.header.Some? && f.rest == tail
            && f.header.value.name == Ascii(StaticRow(i).0) && f.header.value.value == value.s
            && f.header.value.nameEncoded == [] && f.header.value.valueEncoded == StringWire(value)
            && (f.header.value.neverIndexed <==> kind == NeverIndexed)
            && (kind != Incremental ==> f.table == t)
            && (kind == Incremental ==> InsertsAsItShould(t, f.header.value, f.table))
  {
    hide ReadField, Wire, LiteralMeaning, Inserted, InsertsAsItShould, StaticRow;
    NarrowIndexReads(kind, i, value, t, tail, assertions);
    RowMeans(kind, i, value, t);
    InsertedExactly(t, LiteralMeaning(kind, ByIndex(i), value, t).value);
  }

  /** A literal with a spelled name has that name, its own value, and keeps the octets that spelled them. */
  lemma NameFromLiteral(kind: Kind, name: StringLiteral, value: StringLiteral, t: Table, tail: seq<byte>,
                        assertions: bool)
    requires SendableString(name) && SendableString(value)
    ensures ReadField(Wire(Literal(kind, ByName(name), value)) + tail, t, assertions)
            == var h := Header(name.s, value.s, StringWire(name), StringWire(value), kind == NeverIndexed);
               Field(Some(h), if kind == Incremental then Inserted(t, h) else t, tail)
  {
    hide ReadField, Wire, StringWire, SendableString, Inserted;
    SpelledLiteralReads(kind, name, value, t, tail, assertions);
  }

  lemma NarrowIndexReads(kind: Kind, i: nat, value: StringLiteral, t: Table, tail: seq<byte>, assertions: bool)
    requires 0 < i < U32 && SendableString(value) && Sound(t)
    ensures ReadField(Wire(Literal(kind, ByIndex(i), value)) + tail, t, assertions)
            == match LiteralMeaning(kind, ByIndex(i), value, t)
               case None => Bad
               case Some(h) => Given(kind, h, t, tail)
  {
    hide ReadField, Wire, LiteralMeaning, Given, SendableString, Sound;
    assert i % U32 == i;
    IndexedLiteralReads(kind, i, value, t, tail, assertions);
  }

  lemma RowMeans(kind: Kind, i: nat, value: StringLiteral, t: Table)
    requires 0 < i < 62
    ensures var h := LiteralMeaning(kind, ByIndex(i), value, t);
            && h.Some? && h.value.name == Ascii(StaticRow(i).0) && h.value.value == value.s
            && h.value.nameEncoded == [] && h.value.valueEncoded == StringWire(value)
            && (h.value.neverIndexed <==> kind == NeverIndexed)
  {
    hide StaticRow, Ascii, StringWire;
  }
}
