/** String literals: section 5.2 of RFC 7541. */
module HpackString {
  import opened Octets
  import opened HuffmanCode
  import opened HuffmanStream
  import opened HuffmanEncoder
  import opened HuffmanDecoder
  import opened Number

  datatype Result<+T> = Ok(value: T) | Error(message: string)

  // ---------------------------------------------------------------- encoding

  // The raw literal. The length goes under whatever the prefix octet's top bit was.
  function RawForm(s: seq<byte>, first: byte): seq<byte> {
    NumberOctets(first, |s|, 7) + s
  }

  // The encoder keeps the Huffman form unless the raw one is shorter; ties keep Huffman.
  function Chosen(s: seq<byte>, first: byte): seq<byte> {
    if |RawForm(s, first)| < |HuffmanForm(s)| then RawForm(s, first) else HuffmanForm(s)
  }

  // Strings whose literals fit in 32-bit lengths and in the scratch buffer of |s| + 10 octets.
  predicate Encodable(s: seq<byte>) {
    |s| + 10 < U32 && RoomForPrefix(s, |s| + 10)
  }

  // A literal, or octets written past the end of a buffer.
  datatype Encoded = Encoding(octets: seq<byte>) | Overran

  // What the encoder does. The length of the raw form is narrowed to 32 bits before the comparison.
  function EncodedHere(s: seq<byte>, first: byte): Encoded {
    var raw, huffman := RawForm(s, first), HuffmanForm(s);
    var coded := |Payload(s)| <= |s| + 9;
    if coded && |huffman| > |s| + 10 then Overran
    else if coded && (|huffman| <= |s| || |huffman| <= |raw| % U32) then Encoding(huffman)
    else if |raw| < U32 then Encoding(raw)
    else Overran
  }

  // `junk` is the uninitialised octet that becomes the raw length prefix. No string comes closer to the end of the
  // address space.
  method HpackEncodeString(s: seq<byte>, junk: byte) returns (r: Encoded)
    requires |s| + 30 <= SSIZE_MAX
    ensures r == EncodedHere(s, junk)
  {
    hide NumberOctets, Payload, HuffmanForm, RawForm;
    Lengths(s, junk);
    var coded := new byte[10 + |s|];
    var len, overran := HuffmanEncode(s, coded);
    if overran {
      return Overran;
    }
    if len > 0 {
      if len <= |s| {
        return Encoding(coded[..len]);
      }
    }
    var prefix := new byte[10];
    prefix[0] := junk;
    var rawPrefixLength := EncodeNumber(|s|, 7, prefix);
    var rawLength := (rawPrefixLength + |s|) % U32;
    if len < 0 || rawLength < len {
      if rawLength < rawPrefixLength + |s| {
        return Overran;
      }
      return Encoding(prefix[..rawPrefixLength] + s);
    }
    return Encoding(coded[..len]);
  }

  lemma Lengths(s: seq<byte>, first: byte)
    requires |s| <= SSIZE_MAX
    ensures |Payload(s)| < |HuffmanForm(s)| && (|Payload(s)| <= SSIZE_MAX ==> |HuffmanForm(s)| <= |Payload(s)| + 10)
    ensures RawForm(s, first) == NumberOctets(first, |s|, 7) + s && 1 <= |NumberOctets(first, |s|, 7)| <= 10
  {
    hide NumberOctets, Payload;
    LengthPrefix(first, first, |s|);
    LengthPrefix(0x80, 0x80, |Payload(s)|);
    NumberOctetsStart(first, |s|, 7);
    NumberOctetsStart(0x80, |Payload(s)|, 7);
  }

  /** The encoder picks the shorter form of every string that fits, and the choice does not depend on the junk octet. */
  lemma ShorterFormIsChosen(s: seq<byte>, junk: byte)
    requires Encodable(s)
    ensures EncodedHere(s, junk) == Encoding(Chosen(s, junk))
    ensures |Chosen(s, junk)| == if |RawForm(s, 0)| < |HuffmanForm(s)| then |RawForm(s, 0)| else |HuffmanForm(s)|
  {
    hide NumberOctets, Payload, HuffmanForm;
    LengthPrefix(junk, 0, |s|);
    RawPrefixLength(s, junk);
    Lengths(s, junk);
  }

  /** Otherwise, with lengths of 32 bits, a buffer is overrun. */
  lemma OverrunsExactly(s: seq<byte>, junk: byte)
    requires |s| + 10 < U32
    ensures EncodedHere(s, junk) == Overran <==> !RoomForPrefix(s, |s| + 10)
  {
    hide NumberOctets, Payload, HuffmanForm;
    RawPrefixLength(s, junk);
    Lengths(s, junk);
  }

  lemma RawPrefixLength(s: seq<byte>, first: byte)
    requires |s| + 10 < U32
    ensures 1 <= |NumberOctets(first, |s|, 7)| <= 6
  {
    NumberOctetsStart(first, |s|, 7);
    SevenBitWeights();
    if |s| >= 127 { ContinuationLength(|s| - 127, 5); }
  }

  /** At most 30 bits an octet. */
  lemma {:induction false} CodeBitsLength(s: seq<byte>)
    ensures |CodeBits(s)| <= 30 * |s|
  {
    if s != [] {
      CodeFits(s[0]);
      CodeBitsLength(s[1..]);
    }
  }

  lemma PayloadLength(s: seq<byte>)
    requires |s| <= SSIZE_MAX / 8
    ensures |Payload(s)| < |HuffmanForm(s)| <= SSIZE_MAX
  {
    CodeBitsLength(s);
    LengthPrefix(0x80, 0x80, |Payload(s)|);
  }

  // ---------------------------------------------------------------- decoding

  // A view that the decoders advance.
  class Span {
    var octets: seq<byte>

    constructor (octets: seq<byte>)
      ensures this.octets == octets
    {
      this.octets := octets;
    }

    method Skip(n: nat)
      requires n <= |octets|
      modifies this
      ensures octets == old(octets)[n..]
    {
      octets := octets[n..];
    }
  }

  // A decoded literal: its value, the octets that spelled it, and what follows them.
  datatype StringRead = StringRead(value: seq<byte>, encoded: seq<byte>, rest: seq<byte>)

  // What a string literal at the start of `buf` means, for the form that its first bit selects.
  ghost function ReadString(buf: seq<byte>): Result<StringRead> {
    if buf == [] then Error("End of buffer decoding string")
    else
      match Read(buf, 7)
      case Malformed(_) => Error("String length decode failure")
      case Value(exact, used) =>
        ReadUses(buf, 7);
        var n := exact % U64;
        if n > |buf| - used then Error("String length longer than buffer")
        else
          var payload := buf[used..used + n];
          var value := if buf[0] < 0x80 then payload else Decoded(OctetBits(payload), 0);
          Ok(StringRead(value, buf[..used + n], buf[used + n..]))
  }

  lemma {:induction false} ReadTailUses(s: seq<byte>, room: nat)
    requires room > 0 && ReadTail(s, room).Value?
    ensures 1 <= ReadTail(s, room).used <= |s|
  {
    if s[0] >= 0x80 { ReadTailUses(s[1..], room - 1); }
  }

  lemma ReadUses(buf: seq<byte>, bits: nat)
    ensures Read(buf, bits).Value? ==> 1 <= Read(buf, bits).used <= |buf|
    ensures Read(buf, bits).Malformed? ==> Read(buf, bits).code < 0
  {
    if Read(buf, bits).Value? && Mask(buf[0], bits) == MaskFromBits(bits) {
      ReadTailUses(buf[1..], MAX_OCTETS);
    } else if Read(buf, bits).Malformed? && |buf| > 0 && bits <= 8 {
      ReadTailFails(buf[1..], MAX_OCTETS);
    }
  }

  lemma {:induction false} ReadTailFails(s: seq<byte>, room: nat)
    requires room > 0 && ReadTail(s, room).Malformed?
    ensures ReadTail(s, room).code < 0
  {
    if s != [] && s[0] >= 0x80 && room > 1 { ReadTailFails(s[1..], room - 1); }
  }

  // `r` and the advanced buffer are what `ReadString` says.
  ghost predicate Delivers(r: Result<(seq<byte>, seq<byte>)>, rest: seq<byte>, expected: Result<StringRead>) {
    match expected
    case Ok(literal) => r == Ok((literal.value, literal.encoded)) && rest == literal.rest
    case Error(_) => r.Error?
  }

  method DecodeRawString(buf: Span) returns (r: Result<(seq<byte>, seq<byte>)>)
    requires buf.octets != [] && buf.octets[0] < 0x80
    modifies buf
    ensures Delivers(r, buf.octets, ReadString(old(buf.octets)))
  {
    hide Read, Decoded;
    ghost var before := buf.octets;
    ReadUses(before, 7);
    var used, n := DecodeNumber(buf.octets, 7);
    if used < 1 {
      return Error("String length decode failure");
    }
    var encoded := buf.octets[..used];
    buf.Skip(used);
    if n > |buf.octets| {
      return Error("String prefix longer than buffer");
    }
    encoded := encoded + buf.octets[..n];
    var s := buf.octets[..n];
    buf.Skip(n);
    assert encoded == before[..used + n] && s == before[used..used + n] && buf.octets == before[used + n..];
    return Ok((s, encoded));
  }

  // How the second form is read.
  lemma HuffmanStringRead(buf: seq<byte>)
    requires buf != [] && buf[0] >= 0x80
    ensures match Read(buf, 7)
            case Malformed(_) => ReadString(buf).Error?
            case Value(exact, used) =>
              var n := exact % U64;
              && used <= |buf|
              && if n > |buf| - used then ReadString(buf).Error?
                 else ReadString(buf) == Ok(StringRead(Decoded(OctetBits(buf[used..used + n]), 0), buf[..used + n],
                                                       buf[used + n..]))
  {
    hide Read, Decoded, OctetBits;
    ReadUses(buf, 7);
  }

  method DecodeHuffmanString(buf: Span) returns (r: Result<(seq<byte>, seq<byte>)>)
    requires buf.octets != [] && buf.octets[0] >= 0x80
    modifies buf
    ensures Delivers(r, buf.octets, ReadString(old(buf.octets)))
  {
    hide Read, ReadString, Decoded, OctetBits;
    ghost var before := buf.octets;
    ReadUses(before, 7);
    HuffmanStringRead(before);
    var used, codedLen := DecodeNumber(buf.octets, 7);
    if used < 1 {
      return Error("Huffman-coded string length decode failure");
    }
    var encoded := buf.octets[..used];
    buf.Skip(used);
    if codedLen > |buf.octets| {
      return Error("Huffman-coded string length longer than buffer");
    }
    encoded := encoded + buf.octets[..codedLen];
    var s := new byte[codedLen * 8 / 5 + 1];
    ghost var payload := before[used..used + codedLen];
    assert buf.octets[..codedLen] == payload;
    ghost var decoded := Decoded(OctetBits(payload), 0);
    EnoughRoom(payload, 0, s.Length);
    var decodedLen := HuffmanDecode(buf.octets[..codedLen], 8, s);
    assert decoded[..|decoded|] == decoded && s[..decodedLen] == decoded;
    buf.Skip(codedLen);
    assert encoded == before[..used + codedLen] && buf.octets == before[used + codedLen..];
    return Ok((s[..decodedLen], encoded));
  }

  method DecodeString(buf: Span) returns (r: Result<(seq<byte>, seq<byte>)>)
    modifies buf
    ensures Delivers(r, buf.octets, ReadString(old(buf.octets)))
  {
    if |buf.octets| == 0 {
      return Error("End of buffer decoding string");
    }
    if buf.octets[0] >= 0x80 {
      r := DecodeHuffmanString(buf);
    } else {
      r := DecodeRawString(buf);
    }
  }

  // ---------------------------------------------------------------- the laws

  lemma RawRoundTrip(s: seq<byte>, first: byte, tail: seq<byte>)
    requires |s| < U64 && first < 0x80
    ensures ReadString(RawForm(s, first) + tail) == Ok(StringRead(s, RawForm(s, first), tail))
  {
    hide Read, NumberOctets;
    NumberInFront(first, |s|, s, tail);
  }

  lemma HuffmanRoundTrip(s: seq<byte>, tail: seq<byte>)
    requires |Payload(s)| < U64
    ensures ReadString(HuffmanForm(s) + tail) == Ok(StringRead(s, HuffmanForm(s), tail))
  {
    hide Read, NumberOctets, Decoded, Packed, CodeBits, OctetBits;
    NumberInFront(0x80, |Payload(s)|, Payload(s), tail);
    PackedBits(CodeBits(s));
    DecodesCodeBits(Payload(s), s, 8 * |Payload(s)| - |CodeBits(s)|, |s|);
  }

  /** Packed code words decode to the string, in any destination that can hold it. */
  lemma PayloadRoundTrip(s: seq<byte>, room: nat)
    requires |s| <= room
    ensures Decoded(OctetBits(Payload(s)), 0) == s && Verdict(OctetBits(Payload(s)), 0, room) == |s|
  {
    hide Decoded, Packed, CodeBits, OctetBits;
    PackedBits(CodeBits(s));
    DecodesCodeBits(Payload(s), s, 8 * |Payload(s)| - |CodeBits(s)|, room);
  }

  /** Encoder and decoder one after the other, over any string. */
  method EncodeAndDecode(s: seq<byte>, room: nat) returns (decoded: seq<byte>)
    requires |s| <= SSIZE_MAX / 4 && |s| <= room
    ensures decoded == s
  {
    hide Decoded, Packed, CodeBits, OctetBits, OnlyPadding, Verdict, Overwritten;
    CodeBitsLength(s);
    PackedBits(CodeBits(s));
    PayloadRoundTrip(s, room);
    var coded := new byte[30 * |s| / 8 + 1];
    ghost var before := coded[..];
    var n := Encode(s, coded, 0);
    OverwrittenAt(before, 0, Payload(s));
    assert coded[..n] == Payload(s);
    var dest := new byte[room];
    var ret := HuffmanDecode(coded[..n], 8, dest);
    return dest[..ret];
  }

  // A length prefix, its payload and a tail come apart again.
  lemma NumberInFront(first: byte, n: nat, payload: seq<byte>, tail: seq<byte>)
    requires n == |payload| < U64
    ensures var head := NumberOctets(first, n, 7);
            var buf := head + payload + tail;
            && Read(buf, 7) == Value(n, |head|)
            && (buf[0] < 0x80 <==> first < 0x80)
            && buf[|head|..|head| + n] == payload && buf[..|head| + n] == head + payload && buf[|head| + n..] == tail
  {
    hide Read, NumberOctets;
    var head := NumberOctets(first, n, 7);
    SevenBitWeights();
    NumberRoundTrip(first, n, 7, payload + tail);
    assert head + payload + tail == head + (payload + tail);
    TopBitKept(first, head[0]);
  }

  lemma TopBitKept(a: byte, b: byte)
    requires Shr(a, 7) == Shr(b, 7)
    ensures a < 0x80 <==> b < 0x80
  {
    ShrValues(a / 2);
    ShrValues(b / 2);
  }

  /**
   * Decoding what the encoder wrote gives the string, the encoder's octets and the untouched tail. It takes an
   * uninitialised octet whose top bit is clear: the output is one of the two literals of `s` just then, or when the
   * Huffman form is the shorter one.
   */
  lemma StringRoundTrip(s: seq<byte>, junk: byte, tail: seq<byte>)
    requires |s| <= SSIZE_MAX / 8
    ensures Chosen(s, junk) in {RawForm(s, 0), HuffmanForm(s)} <==>
            junk < 0x80 || |RawForm(s, 0)| >= |HuffmanForm(s)|
    ensures Chosen(s, junk) in {RawForm(s, 0), HuffmanForm(s)} ==>
              ReadString(Chosen(s, junk) + tail) == Ok(StringRead(s, Chosen(s, junk), tail))
  {
    hide NumberOctets, Payload, ReadString, HuffmanForm;
    LengthPrefix(junk, 0, |s|);
    PayloadLength(s);
    RawRoundTrip(s, 0, tail);
    HuffmanRoundTrip(s, tail);
    TopBitOfForms(s);
    NumberInFront(0, |s|, s, []);
    NumberInFront(junk, |s|, s, []);
    var clean, head := NumberOctets(0, |s|, 7), NumberOctets(junk, |s|, 7);
    assert head == [head[0]] + head[1..] && clean == [clean[0]] + clean[1..];
    if junk < 0x80 {
      SameAbove(junk, |s|);
    }
  }

  lemma TopBitOfForms(s: seq<byte>)
    requires |Payload(s)| < U64
    ensures HuffmanForm(s)[0] >= 0x80
  {
    hide NumberOctets, Payload;
    NumberInFront(0x80, |Payload(s)|, Payload(s), []);
  }

  lemma SameAbove(junk: byte, n: nat)
    requires junk < 0x80
    ensures NumberOctets(junk, n, 7) == NumberOctets(0, n, 7)
  {
    AboveSeven(junk);
    AboveSeven(0);
  }

  // ---------------------------------------------------------------- where the encoder goes wrong

  // The first octets of what the code word of octet 0xff spells.
  const OWN_CODE: seq<byte> := [0xff, 0xff, 0xfb]

  /** With the top bit of the uninitialised octet set, a raw literal is read as Huffman code, to another string. */
  lemma SetTopBitBreaksRawLiterals(s: seq<byte>, junk: byte, tail: seq<byte>)
    requires |s| <= SSIZE_MAX / 8 && junk >= 0x80 && |RawForm(s, 0)| < |HuffmanForm(s)|
    requires !(OWN_CODE <= s)
    ensures ReadString(Chosen(s, junk) + tail) != Ok(StringRead(s, Chosen(s, junk), tail))
  {
    hide NumberOctets, Payload, Read, OctetBits, Decoded, OWN_CODE;
    LengthPrefix(junk, 0, |s|);
    NumberInFront(junk, |s|, s, tail);
    if s == [] { NothingIsNoLonger(); }
    NotItsOwnCode(s);
  }

  lemma NothingIsNoLonger()
    ensures |RawForm([], 0)| >= |HuffmanForm([])|
  {
    CodeBitsNone();
    LengthPrefix(0, 0x80, 0);
  }

  lemma NotItsOwnCode(s: seq<byte>)
    requires s != [] && !(OWN_CODE <= s)
    ensures Decoded(OctetBits(s), 0) != s
  {
    hide ShortBits0, EncTable, OctetBits, CodeAt;
    var bits := OctetBits(s);
    PeekOctet(s, 0);
    if s[0] < 0xfe {
      NoOctetStandsForItself(s[0]);
      CascadeRefinesCode(bits, 0, s[0]);
    } else if s[0] == 0xfe {
      CascadeRefinesCode(bits, 0, s[0]);
    } else if CodeAt(bits, 0, s[0]) {
      OwnCodeWord(s);
    }
  }

  lemma OwnCodeWord(s: seq<byte>)
    requires s != [] && CodeAt(OctetBits(s), 0, 0xff)
    ensures OWN_CODE <= s
  {
    hide EncTable, OctetBits, Peek;
    var bits := OctetBits(s);
    assert EncTable(0xff) == Code(0x3ffffee, 26) by { LastCode(); }
    PeekSplit(bits, 0, 24, 2);
    ShlValues(Peek(bits, 0, 24));
    PeekSplit(bits, 0, 8, 16);
    PeekSplit(bits, 8, 8, 8);
    ShlOctet(Peek(bits, 0, 8), Peek(bits, 8, 8));
    Pow2Wide();
    Pow2Values();
    assert Peek(bits, 0, 8) == 0xff && Peek(bits, 8, 8) == 0xff && Peek(bits, 16, 8) == 0xfb;
    if |s| < 3 {
      PeekOnes(bits, 16, 8);
    } else {
      PeekOctet(s, 0);
      PeekOctet(s, 1);
      PeekOctet(s, 2);
    }
  }

  lemma LastCode()
    ensures EncTable(0xff) == Code(0x3ffffee, 26)
  {}

  lemma ShlOctet(a: nat, b: nat)
    ensures Shl(a, 16) == 0x1_0000 * a && Shl(b, 8) == 0x100 * b
  {
    ShlValues(a);
    ShlAdd(a, 8, 8);
    ShlValues(0x100 * a);
    ShlValues(b);
  }

  lemma NoOctetStandsForItself(i: byte)
    requires i < 0xfe
    ensures ShortBits0(i).octet != i
  {}

  // A string whose payload fills the scratch buffer behind a prefix of one octet.
  function TooTight(n: nat): seq<byte>
    requires n >= 3
  {
    seq(3, _ => 10) + seq(n - 3, _ => 38)
  }

  lemma TightCodes()
    ensures EncTable(10).bits == 30 && EncTable(38).bits == 8
  {}

  lemma TooTightPayload(n: nat)
    requires n >= 3
    ensures |TooTight(n)| == n && |Payload(TooTight(n))| == n + 9
  {
    hide CodeBits, EncTable;
    var newlines, ampersands := seq(3, _ => 10), seq(n - 3, _ => 38);
    TightCodes();
    CodeBitsRepeated(10, 3);
    CodeBitsRepeated(38, n - 3);
    CodeBitsAppend(newlines, ampersands);
    PackedBits(CodeBits(TooTight(n)));
  }

  /** Ten octets of slack leave room for the prefix of every string of a length if and only if it is at most 117. */
  lemma TenOctetsOfSlack(n: nat)
    ensures (forall s :: |s| == n ==> RoomForPrefix(s, n + 10)) <==> n <= 117
  {
    hide Payload, NumberOctets;
    if n <= 117 {
      forall s | |s| == n ensures RoomForPrefix(s, n + 10) {
        NumberOctetsStart(0x80, |Payload(s)|, 7);
      }
    } else {
      var s := TooTight(n);
      TooTightPayload(n);
      NumberOctetsStart(0x80, |Payload(s)|, 7);
      LongContinuation(|Payload(s)| - 127);
      assert !RoomForPrefix(s, n + 10);
    }
  }

  lemma LongContinuation(n: nat)
    ensures |Continuation(n)| >= 1
  {
    ContinuationStep(n);
  }

  lemma {:induction false} CodeBitsRepeated(x: byte, n: nat)
    ensures |CodeBits(seq(n, _ => x))| == n * EncTable(x).bits
  {
    hide EncTable, CodeBits;
    if n == 0 {
      CodeBitsNone();
      assert seq(n, _ => x) == [];
    } else {
      CodeBitsRepeated(x, n - 1);
      CodeBitsCons(x, seq(n - 1, _ => x));
      assert seq(n, _ => x) == [x] + seq(n - 1, _ => x);
      MulStep(n, EncTable(x).bits);
    }
  }

  lemma MulStep(n: nat, k: nat)
    requires n > 0
    ensures n * k == k + (n - 1) * k
  {}
}
