/** Header blocks as lists of representations: what RFC 7541 says they mean, and what the decoder makes of them. */
module HeaderBlock {
  import opened Wrappers
  import opened Octets
  import opened Number
  import opened HuffmanEncoder
  import opened HuffmanStream
  import opened HpackString
  import opened HeaderTable
  import opened HeaderDecoder

  datatype StringLiteral = Raw(s: seq<byte>) | Huffman(s: seq<byte>)

  datatype Kind = Incremental | WithoutIndexing | NeverIndexed

  datatype NameRef = ByIndex(i: nat) | ByName(literal: StringLiteral)

  datatype Representation =
    | Indexed(i: nat)
    | Literal(kind: Kind, name: NameRef, value: StringLiteral)
    | SizeUpdate(n: nat)

  // ---------------------------------------------------------------- on the wire

  function StringWire(l: StringLiteral): seq<byte> {
    match l
    case Raw(s) => RawForm(s, 0)
    case Huffman(s) => HuffmanForm(s)
  }

  function KindPattern(kind: Kind): byte {
    match kind case Incremental => 0x40 case WithoutIndexing => 0 case NeverIndexed => 0x10
  }

  function KindBits(kind: Kind): (bits: nat)
    ensures 4 <= bits <= 6
  {
    if kind == Incremental then 6 else 4
  }

  function Wire(r: Representation): seq<byte> {
    match r
    case Indexed(i) => NumberOctets(0x80, i, 7)
    case SizeUpdate(n) => NumberOctets(0x20, n, 5)
    case Literal(kind, ByIndex(i), value) => NumberOctets(KindPattern(kind), i, KindBits(kind)) + StringWire(value)
    case Literal(kind, ByName(name), value) =>
      NumberOctets(KindPattern(kind), 0, KindBits(kind)) + (StringWire(name) + StringWire(value))
  }

  function BlockWire(rs: seq<Representation>): seq<byte> {
    if rs == [] then [] else Wire(rs[0]) + BlockWire(rs[1..])
  }

  // Lengths, indexes and limits that fit the machine's integers.
  predicate SendableString(l: StringLiteral) {
    |l.s| < U64 && |Payload(l.s)| < U64
  }

  predicate Sendable(r: Representation) {
    match r
    case Indexed(i) => i < U64
    case SizeUpdate(n) => n < U64
    case Literal(_, name, value) =>
      && SendableString(value)
      && match name case ByIndex(i) => 0 < i < U64 case ByName(l) => SendableString(l)
  }

  // ---------------------------------------------------------------- the list interpreter

  // Name, value and the octets that spelled them; an indexed header keeps its entry's.
  function LiteralMeaning(kind: Kind, name: NameRef, value: StringLiteral, t: Table): Option<Header> {
    match name
    case ByName(l) => Some(Header(l.s, value.s, StringWire(l), StringWire(value), kind == NeverIndexed))
    case ByIndex(i) =>
      match Lookup(t, i)
      case None => None
      case Some(h) =>
        var named := h.(value := value.s, valueEncoded := StringWire(value));
        Some(if kind == NeverIndexed then named.(neverIndexed := true) else named)
  }

  datatype Meaning = Meaning(header: Option<Header>, table: Table)

  // What one representation yields and does to the table; None when it is not valid there.
  function Interpret(r: Representation, t: Table): Option<Meaning> {
    match r
    case SizeUpdate(n) => Some(Meaning(None, Resized(t, n)))
    case Indexed(i) =>
      (match Lookup(t, i)
       case None => None
       case Some(h) => Some(Meaning(Some(h), t)))
    case Literal(kind, name, value) =>
      match LiteralMeaning(kind, name, value, t)
      case None => None
      case Some(h) => Some(Meaning(Some(h), if kind == Incremental then Inserted(t, h) else t))
  }

  // The headers of a list of representations and the final table, or an error where one of them is not valid.
  function BlockMeans(rs: seq<Representation>, t: Table): BlockResult {
    if rs == [] then Headers([], t)
    else
      match Interpret(rs[0], t)
      case None => BadBlock
      case Some(m) => Push(m.header, BlockMeans(rs[1..], m.table))
  }

  // ---------------------------------------------------------------- reading what was written

  lemma StringWireReads(l: StringLiteral, tail: seq<byte>)
    requires SendableString(l)
    ensures ReadString(StringWire(l) + tail) == Ok(StringRead(l.s, StringWire(l), tail))
  {
    hide ReadString, RawForm, HuffmanForm, Payload;
    match l
    case Raw(s) => RawRoundTrip(s, 0, tail);
    case Huffman(s) => HuffmanRoundTrip(s, tail);
  }

  // The table fits its limit, which has 32 bits.
  predicate Sound(t: Table) {
    TableSize(t.entries) <= t.limit < U32
  }

  /** Valid indices survive the narrowing to 32 bits. */
  lemma {:induction false} EntriesAreFew(entries: seq<Header>)
    ensures 32 * |entries| <= TableSize(entries)
  {
    if entries != [] { EntriesAreFew(entries[..|entries| - 1]); }
  }

  // A number and what follows it, read back.
  lemma NumberReads(first: byte, n: nat, bits: nat, tail: seq<byte>)
    requires n < U64 && 1 <= bits <= 8
    ensures var head := NumberOctets(first, n, bits);
            && Read(head + tail, bits) == Value(n, |head|) && (head + tail)[|head|..] == tail
            && (head + tail)[0] == head[0] && Shr(head[0], bits) == Shr(first, bits)
  {
    hide Read, NumberOctets, Shr;
    SevenBitWeights();
    NumberRoundTrip(first, n, bits, tail);
  }

  // The first octet of each kind of representation selects its reader.
  lemma LiteralPattern(kind: Kind, head: byte)
    requires Shr(head, KindBits(kind)) == Shr(KindPattern(kind), KindBits(kind))
    ensures match kind
            case Incremental => 0x40 <= head < 0x80
            case WithoutIndexing => head < 0x10
            case NeverIndexed => 0x10 <= head < 0x20
  {
    ShrValues(head);
    ShrValues(0x40);
    ShrValues(0x10);
    ShrValues(0);
  }

  // What should be read, with anything behind it.
  function Meant(r: Representation, t: Table, tail: seq<byte>): FieldResult {
    match Interpret(r, t)
    case None => Bad
    case Some(m) => Field(m.header, m.table, tail)
  }

  // An index that is not valid stays so when it is narrowed to 32 bits.
  predicate IndexWorks(i: nat, t: Table) {
    i < U32 || Lookup(t, i % U32).None?
  }

  lemma WideIsInvalid(i: nat, t: Table)
    requires Sound(t)
    ensures Lookup(t, i).Some? ==> i < U32
  {
    hide TableSize, StaticGet;
    EntriesAreFew(t.entries);
  }

  /** An index is read as its low 32 bits, which is right if and only if it has no others or there is no such entry. */
  lemma IndexedReads(i: nat, t: Table, tail: seq<byte>, assertions: bool)
    requires i < U64 && Sound(t)
    ensures ReadField(Wire(Indexed(i)) + tail, t, assertions)
            == match Lookup(t, i % U32) case None => Bad case Some(h) => Field(Some(h), t, tail)
    ensures ReadField(Wire(Indexed(i)) + tail, t, assertions) == Meant(Indexed(i), t, tail) <==> IndexWorks(i, t)
  {
    hide Read, NumberOctets, Lookup;
    WideIsInvalid(i, t);
    NumberReads(0x80, i, 7, tail);
    TopBitKept(0x80, NumberOctets(0x80, i, 7)[0]);
  }

  // The decoder's reading of a literal is its meaning, up to the never-indexed mark that it adds later.
  predicate ReadsAs(r: LiteralResult, kind: Kind, h: Header, tail: seq<byte>) {
    && r.LiteralHeader? && r.rest == tail
    && h == if kind == NeverIndexed then r.header.(neverIndexed := true) else r.header
  }

  lemma IndexedNameReads(kind: Kind, i: nat, value: StringLiteral, t: Table, tail: seq<byte>)
    requires 0 < i < U64 && SendableString(value)
    ensures var buf := Wire(Literal(kind, ByIndex(i), value)) + tail;
            var h := LiteralMeaning(kind, ByIndex(i % U32), value, t);
            && Shr(buf[0], KindBits(kind)) == Shr(KindPattern(kind), KindBits(kind))
            && if h.None? then ReadLiteral(buf, KindBits(kind), t) == BadLiteral
               else ReadsAs(ReadLiteral(buf, KindBits(kind), t), kind, h.value, tail)
  {
    hide Read, Lookup, NumberOctets, ReadString, StringWire, Shr, KindPattern, KindBits, SendableString;
    var v, bits := StringWire(value), KindBits(kind);
    StringWireReads(value, tail);
    var head := NumberOctets(KindPattern(kind), i, bits);
    NumberReads(KindPattern(kind), i, bits, v + tail);
    assert head + v + tail == head + (v + tail);
  }

  lemma SpelledNameReads(kind: Kind, name: StringLiteral, value: StringLiteral, t: Table, tail: seq<byte>)
    requires SendableString(name) && SendableString(value)
    ensures var buf := Wire(Literal(kind, ByName(name), value)) + tail;
            var h := LiteralMeaning(kind, ByName(name), value, t).value;
            && ReadsAs(ReadLiteral(buf, KindBits(kind), t), kind, h, tail)
            && Shr(buf[0], KindBits(kind)) == Shr(KindPattern(kind), KindBits(kind))
  {
    hide Read, Lookup, NumberOctets, ReadString, StringWire, Shr, KindPattern, KindBits, SendableString;
    var head, n, v := NumberOctets(KindPattern(kind), 0, KindBits(kind)), StringWire(name), StringWire(value);
    StringWireReads(value, tail);
    StringWireReads(name, v + tail);
    NumberReads(KindPattern(kind), 0, KindBits(kind), n + (v + tail));
    assert head + (n + v) + tail == head + (n + (v + tail));
  }

  // A literal header, and its place in the table if it gets one.
  function Given(kind: Kind, h: Header, t: Table, tail: seq<byte>): FieldResult {
    Field(Some(h), if kind == Incremental then Inserted(t, h) else t, tail)
  }

  /** The same of an indexed name. */
  lemma IndexedLiteralReads(kind: Kind, i: nat, value: StringLiteral, t: Table, tail: seq<byte>, assertions: bool)
    requires Sendable(Literal(kind, ByIndex(i), value)) && Sound(t)
    ensures var r := Literal(kind, ByIndex(i), value);
            && ReadField(Wire(r) + tail, t, assertions)
               == match LiteralMeaning(kind, ByIndex(i % U32), value, t)
                  case None => Bad
                  case Some(h) => Given(kind, h, t, tail)
  {
    hide ReadLiteral, NumberOctets, StringWire, Inserted, Lookup, ReadSizeUpdate, ReadIndexed, Shr, LiteralMeaning;
    IndexedNameReads(kind, i, value, t, tail);
    LiteralPattern(kind, (Wire(Literal(kind, ByIndex(i), value)) + tail)[0]);
  }

  lemma IndexedLiteralWorks(kind: Kind, i: nat, value: StringLiteral, t: Table, tail: seq<byte>, assertions: bool)
    requires Sendable(Literal(kind, ByIndex(i), value)) && Sound(t)
    ensures var r := Literal(kind, ByIndex(i), value);
            ReadField(Wire(r) + tail, t, assertions) == Meant(r, t, tail) <==> IndexWorks(i, t)
  {
    hide ReadField, Wire, Meant, LiteralMeaning, Given, IndexWorks;
    IndexedLiteralReads(kind, i, value, t, tail, assertions);
    WideIsInvalid(i, t);
    NarrowedMeaning(kind, i, i % U32, value, t, tail);
  }

  lemma NarrowedMeaning(kind: Kind, i: nat, j: nat, value: StringLiteral, t: Table, tail: seq<byte>)
    requires j == i % U32 && (Lookup(t, i).Some? ==> i < U32)
    ensures (match LiteralMeaning(kind, ByIndex(j), value, t)
             case None => Bad
             case Some(h) => Given(kind, h, t, tail)) == Meant(Literal(kind, ByIndex(i), value), t, tail)
            <==> IndexWorks(i, t)
  {
    hide StringWire, Inserted, Lookup;
    if i < U32 {
      assert j == i;
    } else {
      assert Meant(Literal(kind, ByIndex(i), value), t, tail) == Bad;
    }
  }

  lemma SpelledLiteralReads(kind: Kind, name: StringLiteral, value: StringLiteral, t: Table, tail: seq<byte>,
                            assertions: bool)
    requires Sendable(Literal(kind, ByName(name), value))
    ensures var r := Literal(kind, ByName(name), value);
            ReadField(Wire(r) + tail, t, assertions) == Meant(r, t, tail)
  {
    hide ReadLiteral, NumberOctets, StringWire, Inserted, Lookup, ReadSizeUpdate, ReadIndexed, Shr;
    SpelledNameReads(kind, name, value, t, tail);
    LiteralPattern(kind, (Wire(Literal(kind, ByName(name), value)) + tail)[0]);
  }

  // The bit that the decoder wrongly looks for is set in the five-bit prefix.
  predicate PrefixHasBit1(n: nat) {
    n >= 31 || n / 2 % 2 == 1
  }

  // When a size update does what it should: it does not shrink, it gets past the wrong test, and it has 32 bits.
  predicate UpdateWorks(n: nat, t: Table) {
    PrefixHasBit1(n) && t.limit <= n < U32
  }

  lemma SizeUpdateOctet(n: nat)
    ensures var x := NumberOctets(0x20, n, 5)[0];
            0x20 <= x < 0x40 && (x / 2 % 2 == 1 <==> PrefixHasBit1(n))
  {
    hide Continuation;
    ShrValues(0x20);
    ShlValues(1);
    Pow2Values();
    NumberOctetsStart(0x20, n, 5);
  }

  /** A size update is read as section 4.2 wants if and only if it does not shrink and passes the misplaced test. */
  lemma SizeUpdateReads(n: nat, t: Table, tail: seq<byte>, assertions: bool)
    requires n < U64 && Sound(t)
    ensures ReadField(Wire(SizeUpdate(n)) + tail, t, assertions) == Field(None, Resized(t, n), tail)
            <==> UpdateWorks(n, t)
    ensures !PrefixHasBit1(n) ==> ReadField(Wire(SizeUpdate(n)) + tail, t, assertions) == Bad
    ensures PrefixHasBit1(n) ==>
              var f := ReadField(Wire(SizeUpdate(n)) + tail, t, assertions);
              f == if assertions && TableSize(t.entries) > n % U32 then Abort
                   else Field(None, ResizedHere(t, n % U32), tail)
  {
    hide Read, NumberOctets;
    NumberReads(0x20, n, 5, tail);
    SizeUpdateOctet(n);
  }

  // ---------------------------------------------------------------- whole blocks

  // The representation is read as meant.
  predicate Works(r: Representation, t: Table) {
    match r
    case SizeUpdate(n) => UpdateWorks(n, t)
    case Indexed(i) => IndexWorks(i, t)
    case Literal(_, ByIndex(i), _) => IndexWorks(i, t)
    case Literal(_, ByName(_), _) => true
  }

  /** One representation of any kind, valid or not, is read as meant if and only if it works. */
  lemma RepresentationReads(r: Representation, t: Table, tail: seq<byte>, assertions: bool)
    requires Sendable(r) && Sound(t)
    ensures var f := ReadField(Wire(r) + tail, t, assertions);
            (f == Meant(r, t, tail) <==> Works(r, t)) && (f.Field? ==> f.rest == tail)
  {
    hide ReadField, Wire, IndexWorks, UpdateWorks, LiteralMeaning, Lookup;
    match r
    case Indexed(i) => IndexedReads(i, t, tail, assertions);
    case Literal(kind, ByIndex(i), value) =>
      IndexedLiteralReads(kind, i, value, t, tail, assertions);
      IndexedLiteralWorks(kind, i, value, t, tail, assertions);
    case Literal(kind, ByName(name), value) => SpelledLiteralReads(kind, name, value, t, tail, assertions);
    case SizeUpdate(n) => SizeUpdateReads(n, t, tail, assertions);
  }

  lemma InterpretKeepsLimit(r: Representation, t: Table)
    requires Sound(t) && Interpret(r, t).Some? && Works(r, t)
    ensures Sound(Interpret(r, t).value.table)
  {
    hide Lookup, LiteralMeaning, TableSize, Inserted, Evicted;
    match r
    case SizeUpdate(n) => EvictedIsLongestPrefix(t.entries, n);
    case Indexed(_) =>
    case Literal(kind, name, value) =>
      InsertedKeepsLimit(t, LiteralMeaning(kind, name, value, t).value);
  }

  // Every representation works, up to the first that is not valid.
  predicate AllWork(rs: seq<Representation>, t: Table) {
    rs == [] ||
    (Works(rs[0], t) && (Interpret(rs[0], t).Some? ==> AllWork(rs[1..], Interpret(rs[0], t).value.table)))
  }

  // The block decodes to the headers and the table of the list interpreter, or to its error.
  ghost predicate ReadsAsMeant(rs: seq<Representation>, t: Table, assertions: bool) {
    ReadBlock(BlockWire(rs), t, assertions) == BlockMeans(rs, t)
  }

  lemma PushKeepsApart(h: Option<Header>, a: BlockResult, b: BlockResult)
    ensures Push(h, a) == Push(h, b) <==> a == b
  {
    if h.Some? && a.Headers? && b.Headers? {
      assert ([h.value] + a.headers)[1..] == a.headers && ([h.value] + b.headers)[1..] == b.headers;
    }
  }

  lemma BlockUnfolds(r: Representation, rest: seq<Representation>, t: Table)
    ensures BlockWire([r] + rest) == Wire(r) + BlockWire(rest) != []
    ensures BlockMeans([r] + rest, t)
            == match Interpret(r, t) case None => BadBlock case Some(m) => Push(m.header, BlockMeans(rest, m.table))
  {
    hide Wire, Interpret, Push;
    var all := [r] + rest;
    WireIsNotEmpty(r);
    assert all[0] == r && all[1..] == rest;
  }

  lemma ReadsAsMeantStep(r: Representation, rest: seq<Representation>, t: Table, assertions: bool)
    requires Sendable(r) && Sound(t) && Works(r, t)
    ensures ReadsAsMeant([r] + rest, t, assertions)
            <==> (Interpret(r, t).Some? ==> ReadsAsMeant(rest, Interpret(r, t).value.table, assertions))
  {
    hide ReadField, Wire, Interpret, Sendable, Works, Push, BlockWire, BlockMeans;
    RepresentationReads(r, t, BlockWire(rest), assertions);
    BlockUnfolds(r, rest, t);
    if Interpret(r, t).Some? {
      var m := Interpret(r, t).value;
      PushKeepsApart(m.header, ReadBlock(BlockWire(rest), m.table, assertions), BlockMeans(rest, m.table));
    }
  }

  /** A representation that does not work already fails alone. */
  lemma FailsAlone(r: Representation, t: Table, assertions: bool)
    requires Sendable(r) && Sound(t) && !Works(r, t)
    ensures !ReadsAsMeant([r], t, assertions)
  {
    hide ReadField, Wire, Interpret, Sendable, Works, BlockWire, BlockMeans;
    RepresentationReads(r, t, [], assertions);
    BlockUnfolds(r, [], t);
    NothingReads(t, assertions);
    assert [r] + [] == [r] && Wire(r) + [] == Wire(r);
    var f := ReadField(Wire(r), t, assertions);
    if f.Field? { NothingReads(f.table, assertions); }
    if Interpret(r, t).Some? {
      var m := Interpret(r, t).value;
      NothingReads(m.table, assertions);
      if f.Field? { OnePushed(f.header, f.table, m.header, m.table); }
    }
  }

  lemma OnePushed(h: Option<Header>, t: Table, g: Option<Header>, u: Table)
    ensures Push(h, Headers([], t)) == Push(g, Headers([], u)) <==> h == g && t == u
  {
    if h.Some? { assert ([h.value] + [])[0] == h.value; }
    if g.Some? { assert ([g.value] + [])[0] == g.value; }
  }

  lemma NothingReads(t: Table, assertions: bool)
    ensures BlockWire([]) == [] && BlockMeans([], t) == Headers([], t) && ReadBlock([], t, assertions) == Headers([], t)
  {}

  lemma {:induction false} FailingPrefix(rs: seq<Representation>, t: Table, assertions: bool) returns (k: nat)
    requires forall r :: r in rs ==> Sendable(r)
    requires Sound(t) && !AllWork(rs, t)
    ensures k <= |rs| && !ReadsAsMeant(rs[..k], t, assertions)
  {
    hide ReadField, Wire, Interpret, ReadsAsMeant, Works, Sendable;
    var r, rest := rs[0], rs[1..];
    assert Sendable(r);
    if !Works(r, t) {
      FailsAlone(r, t, assertions);
      k := 1;
      assert rs[..1] == [r];
    } else {
      InterpretKeepsLimit(r, t);
      var j := FailingPrefix(rest, Interpret(r, t).value.table, assertions);
      ReadsAsMeantStep(r, rest[..j], t, assertions);
      k := j + 1;
      assert rs[..k] == [r] + rest[..j];
    }
  }

  lemma {:induction false} PrefixReads(rs: seq<Representation>, t: Table, assertions: bool, k: nat)
    requires forall r :: r in rs ==> Sendable(r)
    requires Sound(t) && AllWork(rs, t) && k <= |rs|
    ensures ReadsAsMeant(rs[..k], t, assertions)
  {
    hide ReadField, Wire, Interpret, Works, BlockWire, BlockMeans, ReadBlock;
    if k == 0 {
      assert rs[..0] == [];
      NothingReads(t, assertions);
    } else {
      var r, rest := rs[0], rs[1..];
      assert rs[..k] == [r] + rest[..k - 1];
      if Interpret(r, t).Some? {
        InterpretKeepsLimit(r, t);
        PrefixReads(rest, Interpret(r, t).value.table, assertions, k - 1);
      }
      ReadsAsMeantStep(r, rest[..k - 1], t, assertions);
    }
  }

  /** A block whose representations work decodes to its headers and leaves the table that they lead to, or fails. */
  lemma BlockReads(rs: seq<Representation>, t: Table, assertions: bool)
    requires forall r :: r in rs ==> Sendable(r)
    requires Sound(t) && AllWork(rs, t)
    ensures ReadBlock(BlockWire(rs), t, assertions) == BlockMeans(rs, t)
  {
    PrefixReads(rs, t, assertions, |rs|);
    assert rs[..|rs|] == rs;
  }

  /** A block decodes as meant, after every representation of it, if and only if every one of them works. */
  lemma BlockReadsExactly(rs: seq<Representation>, t: Table, assertions: bool)
    requires (forall r :: r in rs ==> Sendable(r)) && Sound(t)
    ensures (forall k :: 0 <= k <= |rs| ==> ReadsAsMeant(rs[..k], t, assertions)) <==> AllWork(rs, t)
  {
    hide ReadsAsMeant, AllWork;
    if AllWork(rs, t) {
      forall k | 0 <= k <= |rs| ensures ReadsAsMeant(rs[..k], t, assertions) {
        PrefixReads(rs, t, assertions, k);
      }
    } else {
      var k := FailingPrefix(rs, t, assertions);
    }
  }

  lemma WireIsNotEmpty(r: Representation)
    ensures Wire(r) != []
  {}

  // ---------------------------------------------------------------- blocks one after another

  lemma {:induction false} ReadTailExtends(s: seq<byte>, more: seq<byte>, room: nat)
    requires room > 0 && ReadTail(s, room).Value?
    ensures ReadTail(s + more, room) == ReadTail(s, room)
  {
    if s[0] >= 0x80 {
      ReadTailExtends(s[1..], more, room - 1);
      assert (s + more)[1..] == s[1..] + more;
    }
  }

  lemma ReadExtends(buf: seq<byte>, more: seq<byte>, bits: nat)
    requires Read(buf, bits).Value?
    ensures Read(buf + more, bits) == Read(buf, bits)
    ensures Read(buf, bits).used <= |buf|
    ensures (buf + more)[Read(buf, bits).used..] == buf[Read(buf, bits).used..] + more
  {
    ReadUses(buf, bits);
    if Mask(buf[0], bits) == MaskFromBits(bits) {
      ReadTailExtends(buf[1..], more, MAX_OCTETS);
      assert (buf + more)[1..] == buf[1..] + more;
    }
  }

  lemma ReadStringExtends(buf: seq<byte>, more: seq<byte>)
    requires ReadString(buf).Ok?
    ensures var r := ReadString(buf).value;
            ReadString(buf + more) == Ok(r.(rest := r.rest + more))
  {
    hide Read, Decoded, OctetBits;
    ReadExtends(buf, more, 7);
    ReadUses(buf + more, 7);
    var used, n := Read(buf, 7).used, Read(buf, 7).n % U64;
    assert (buf + more)[used..used + n] == buf[used..used + n] && (buf + more)[..used + n] == buf[..used + n];
    assert (buf + more)[used + n..] == buf[used + n..] + more;
  }

  lemma ReadLiteralExtends(buf: seq<byte>, more: seq<byte>, bits: nat, t: Table)
    requires ReadLiteral(buf, bits, t).LiteralHeader?
    ensures var r := ReadLiteral(buf, bits, t);
            ReadLiteral(buf + more, bits, t) == r.(rest := r.rest + more)
  {
    hide Read, ReadString, Lookup;
    ReadExtends(buf, more, bits);
    var rest := buf[Read(buf, bits).used..];
    ReadStringExtends(rest, more);
    if Read(buf, bits).n % U64 == 0 {
      ReadStringExtends(ReadString(rest).value.rest, more);
    }
  }

  lemma ReadFieldExtends(buf: seq<byte>, more: seq<byte>, t: Table, assertions: bool)
    requires buf != [] && ReadField(buf, t, assertions).Field?
    ensures var r := ReadField(buf, t, assertions);
            ReadField(buf + more, t, assertions) == r.(rest := r.rest + more)
  {
    hide Read, ReadLiteral, Lookup, TableSize, Inserted, ResizedHere;
    assert (buf + more)[0] == buf[0];
    if buf[0] >= 0x80 {
      ReadExtends(buf, more, 7);
    } else if buf[0] >= 0x40 {
      ReadLiteralExtends(buf, more, 6, t);
    } else if buf[0] >= 0x20 {
      ReadExtends(buf, more, 5);
    } else {
      ReadLiteralExtends(buf, more, 4, t);
    }
  }

  /** A string literal that is cut short is an error. */
  lemma CutStringFails(l: StringLiteral, k: nat)
    requires SendableString(l) && k < |StringWire(l)|
    ensures ReadString(StringWire(l)[..k]).Error?
  {
    hide ReadString, StringWire, SendableString;
    var wire := StringWire(l);
    var cut, missing := wire[..k], wire[k..];
    assert cut + missing == wire && wire + [] == wire;
    StringWireReads(l, []);
    if ReadString(cut).Ok? { StringKeepsRest(cut, missing); }
  }

  lemma StringKeepsRest(buf: seq<byte>, more: seq<byte>)
    requires ReadString(buf).Ok?
    ensures ReadString(buf + more).Ok? && |ReadString(buf + more).value.rest| >= |more|
  {
    hide ReadString;
    ReadStringExtends(buf, more);
  }

  /** And so is a representation. */
  lemma CutRepresentationFails(r: Representation, k: nat, t: Table, assertions: bool)
    requires Sendable(r) && Sound(t) && 0 < k < |Wire(r)|
    ensures !ReadField(Wire(r)[..k], t, assertions).Field?
  {
    hide ReadField, Wire, Sendable, Works, Meant;
    var wire := Wire(r);
    var cut, missing := wire[..k], wire[k..];
    assert cut + missing == wire && wire + [] == wire;
    RepresentationReads(r, t, [], assertions);
    if ReadField(cut, t, assertions).Field? { FieldKeepsRest(cut, missing, t, assertions); }
  }

  lemma FieldKeepsRest(buf: seq<byte>, more: seq<byte>, t: Table, assertions: bool)
    requires buf != [] && ReadField(buf, t, assertions).Field?
    ensures ReadField(buf + more, t, assertions).Field? && |ReadField(buf + more, t, assertions).rest| >= |more|
  {
    hide ReadField;
    ReadFieldExtends(buf, more, t, assertions);
  }

  /** Parsing two blocks in turn is parsing their concatenation, whatever octets the first one is made of. */
  lemma {:induction false} BlocksConcatenate(a: seq<byte>, b: seq<byte>, t: Table, assertions: bool)
    requires ReadBlock(a, t, assertions).Headers?
    ensures var first := ReadBlock(a, t, assertions);
            ReadBlock(a + b, t, assertions) == Prepend(first.headers, ReadBlock(b, first.table, assertions))
    decreases |a|
  {
    hide ReadField;
    if a == [] {
      assert a + b == b;
    } else {
      var f := ReadField(a, t, assertions);
      ReadFieldAdvances(a, t, assertions);
      ReadFieldExtends(a, b, t, assertions);
      BlocksConcatenate(f.rest, b, f.table, assertions);
    }
  }
}
