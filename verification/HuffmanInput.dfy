/** Which octets the Huffman decoder takes, and which of them section 5.2 of RFC 7541 allows. */
module HuffmanInput {
  import opened Octets
  import opened HuffmanCode
  import opened HuffmanStream
  import opened HuffmanEncoder
  import opened HuffmanDecoder

  // ---------------------------------------------------------------- what is read is what was there

  lemma ReadCodeWord(bits: seq<bool>, p: nat, s: byte)
    requires CodeAt(bits, p, s)
    ensures FirstBits(bits, p) + CodeWord(s) == FirstBits(bits, p + EncTable(s).bits)
  {
    hide EncTable, FirstBits, Peek, ToBits;
    ToBitsPeek(bits, p, EncTable(s).bits);
  }

  /** The symbols read are spelled by the bits up to where reading stops. */
  lemma {:induction false} DecodedIsThere(bits: seq<bool>, p: nat)
    ensures FirstBits(bits, p) + CodeBits(Decoded(bits, p)) == FirstBits(bits, DecodedEnd(bits, p))
    decreases |bits| - p
  {
    hide EncTable, FirstBits, CodeBits, CodeAt, OnlyPadding;
    PaddedOrNot(bits, p);
    if s: byte :| CodeAt(bits, p, s) {
      DecodedStep(bits, p, s);
      CodeFits(s);
      ReadCodeWord(bits, p, s);
      var q := p + EncTable(s).bits;
      DecodedIsThere(bits, q);
      var rest := Decoded(bits, q);
      CodeBitsCons(s, rest);
      assert FirstBits(bits, p) + (CodeWord(s) + CodeBits(rest)) == FirstBits(bits, q) + CodeBits(rest);
    } else {
      NothingDecoded(bits, p);
      CodeBitsNone();
      assert FirstBits(bits, p) + [] == FirstBits(bits, p);
    }
  }

  lemma NothingDecoded(bits: seq<bool>, p: nat)
    requires forall s: byte :: !CodeAt(bits, p, s)
    ensures Decoded(bits, p) == [] && DecodedEnd(bits, p) == p
  {}

  // ---------------------------------------------------------------- what is allowed

  // Code words and padding: the most significant bits of the end code, and less than an octet of them.
  ghost predicate Allowed(bits: seq<bool>) {
    exists s, pad :: pad < 8 && bits == CodeBits(s) + Ones(pad)
  }

  // Reading stops at the padding, of which there is less than an octet.
  ghost predicate StopsAtPadding(bits: seq<bool>) {
    var e := DecodedEnd(bits, 0);
    e <= |bits| < e + 8 && OnlyPadding(bits, e)
  }

  lemma FirstBitsInside(bits: seq<bool>, n: nat)
    requires n <= |bits|
    ensures FirstBits(bits, n) == bits[..n]
  {}

  lemma PaddingIsOnes(bits: seq<bool>, e: nat)
    requires e <= |bits| && OnlyPadding(bits, e)
    ensures bits[e..] == Ones(|bits| - e)
  {
    forall i | 0 <= i < |bits| - e ensures bits[e..][i] {
      assert BitAt(bits, e + i);
    }
  }

  /** Octets are code words and padding if and only if reading stops at the padding, less than an octet from the end. */
  lemma AllowedExactly(bits: seq<bool>)
    ensures Allowed(bits) <==> StopsAtPadding(bits)
    ensures Allowed(bits) ==>
              |CodeBits(Decoded(bits, 0))| <= |bits| < |CodeBits(Decoded(bits, 0))| + 8
              && bits == CodeBits(Decoded(bits, 0)) + Ones(|bits| - |CodeBits(Decoded(bits, 0))|)
  {
    hide Decoded, DecodedEnd, CodeBits, FirstBits, OnlyPadding;
    var e, d := DecodedEnd(bits, 0), Decoded(bits, 0);
    DecodedIsThere(bits, 0);
    assert FirstBits(bits, 0) + CodeBits(d) == CodeBits(d);
    if StopsAtPadding(bits) {
      FirstBitsInside(bits, e);
      PaddingIsOnes(bits, e);
      assert bits == bits[..e] + bits[e..];
    }
    forall s, pad | pad < 8 && bits == CodeBits(s) + Ones(pad) ensures StopsAtPadding(bits) && d == s {
      assert [] + CodeBits(s) + Ones(pad) == bits && [] + CodeBits(s) == CodeBits(s);
      DecodedInvertsCodeBits([], s, pad);
      PaddingBehind(CodeBits(s), pad);
    }
  }

  lemma PaddingBehind(word: seq<bool>, pad: nat)
    requires pad < 8
    ensures OnlyPadding(word + Ones(pad), |word|)
  {}

  lemma SameOctets(a: seq<byte>, b: seq<byte>)
    requires OctetBits(a) == OctetBits(b)
    ensures a == b
  {
    hide OctetBits, Peek;
    assert 8 * |a| == |OctetBits(a)| == |OctetBits(b)| == 8 * |b|;
    forall i | 0 <= i < |a| ensures a[i] == b[i] {
      PeekOctet(a, i);
      PeekOctet(b, i);
    }
  }

  // What encoding the decoded octets again gives.
  ghost function Reencoded(buf: seq<byte>): seq<byte> {
    Payload(Decoded(OctetBits(buf), 0))
  }

  /** The decoder takes what it should if and only if its result encodes to the same octets. */
  lemma AllowedReencodes(buf: seq<byte>)
    ensures Allowed(OctetBits(buf)) <==> Reencoded(buf) == buf
  {
    hide Decoded, DecodedEnd, CodeBits, OctetBits, OnlyPadding, Packed;
    var bits := OctetBits(buf);
    var d := Decoded(bits, 0);
    var word := CodeBits(d);
    PackedBits(word);
    AllowedExactly(bits);
    if Allowed(bits) {
      SamePadding(word, 8 * |Packed(word)| - |word|, |bits| - |word|, 8 * |Packed(word)|, 8 * |buf|);
      SameOctets(Packed(word), buf);
    }
  }

  // Less than an octet fills up to whole octets in one way.
  lemma SamePadding(word: seq<bool>, a: int, b: int, m: int, n: int)
    requires 0 <= a < 8 && 0 <= b < 8 && |word| + a == m && |word| + b == n && m % 8 == 0 && n % 8 == 0
    ensures a == b
  {}

  /** With room for any result the decoder takes every input, also those that do not come out of any encoder. */
  lemma TakenExactly(buf: seq<byte>, room: nat)
    requires room >= 8 * |buf| / 5 + 1
    ensures Verdict(OctetBits(buf), 0, room) == |Decoded(OctetBits(buf), 0)|
    ensures Allowed(OctetBits(buf)) <==> Reencoded(buf) == buf
  {
    EnoughRoom(buf, 0, room);
    AllowedReencodes(buf);
  }

  /** An example of section C.6 of RFC 7541: the status "302". */
  lemma Example()
    ensures Payload(Ascii("302")) == [0x64, 0x02] && Decoded(OctetBits([0x64, 0x02]), 0) == Ascii("302")
  {
    hide Decoded, DecodedEnd, Packed, EncTable;
    var s, word := Ascii("302"), CodeBits(Ascii("302"));
    ExampleBits();
    PackedBits(word);
    SamePadding(word, 8 * |Packed(word)| - |word|, 0, 8 * |Packed(word)|, 16);
    assert word + Ones(0) == word;
    SameOctets(Packed(word), [0x64, 0x02]);
    assert [] + CodeBits(s) + Ones(0) == word && [] + CodeBits(s) == word;
    DecodedInvertsCodeBits([], s, 0);
  }

  lemma ExampleBits()
    ensures CodeBits(Ascii("302")) == OctetBits([0x64, 0x02])
  {
    hide CodeBits, CodeWord, OctetBits;
    assert Ascii("302") == [51, 48, 50];
    CodeBitsCons(51, [48, 50]);
    CodeBitsCons(48, [50]);
    CodeBitsOne(50);
    assert [51] + [48, 50] == [51, 48, 50] && [48] + [50] == [48, 50];
    ExampleWords();
    ExampleOctets();
  }

  lemma ExampleWords()
    ensures CodeWord(51) == [false, true, true, false, false, true]
    ensures CodeWord(48) == [false, false, false, false, false]
    ensures CodeWord(50) == [false, false, false, true, false]
  {
    assert EncTable(51) == Code(0x19, 6) && EncTable(48) == Code(0, 5) && EncTable(50) == Code(2, 5);
    hide EncTable;
  }

  lemma ExampleOctets()
    ensures OctetBits([0x64, 0x02])
            == [false, true, true, false, false, true, false, false]
               + [false, false, false, false, false, false, true, false]
  {
    hide OctetBits, ToBits;
    OctetBitsOne(0x64);
    OctetBitsOne(0x02);
    OctetBitsAppend([0x64], [0x02]);
    assert [0x64] + [0x02] == [0x64, 0x02];
    ExampleOctet();
    LastExampleOctet();
  }

  lemma ExampleOctet()
    ensures ToBits(0x64, 8) == [false, true, true, false, false, true, false, false]
  {
    assert ToBits(0x06, 4) == [false, true, true, false];
  }

  lemma LastExampleOctet()
    ensures ToBits(0x02, 8) == [false, false, false, false, false, false, true, false]
  {
    assert ToBits(0x00, 4) == [false, false, false, false];
  }

  /** Octets of 1s pass for an empty string, one of them even where there is no room, and none of it is allowed. */
  lemma TooMuchPadding(n: nat, room: nat)
    requires n > 0
    ensures var bits := OctetBits(seq(n, _ => 0xff));
            Verdict(bits, 0, room) == (if n == 1 || room > 0 then 0 else -1) && !Allowed(bits)
  {
    hide Decoded, DecodedEnd, OctetBits, CodeAt, EncTable;
    var buf := seq(n, _ => 0xff);
    var bits := OctetBits(buf);
    AllOnes(buf);
    forall s: byte ensures !CodeAt(bits, 0, s) {
      CodeIsNotAllOnes(bits, 0, s);
    }
    NothingDecoded(bits, 0);
    AllowedExactly(bits);
  }

  lemma {:induction false} AllOnes(buf: seq<byte>)
    requires forall k :: 0 <= k < |buf| ==> buf[k] == 0xff
    ensures forall i: nat :: BitAt(OctetBits(buf), i)
  {
    if buf != [] {
      var before := buf[..|buf| - 1];
      AllOnes(before);
      ToBitsOnes(8);
      Pow2Values();
      assert OctetBits(buf) == OctetBits(before) + Ones(8);
      forall i: nat ensures BitAt(OctetBits(buf), i) {
        if i < |OctetBits(before)| {
          assert BitAt(OctetBits(before), i);
        } else if i < |OctetBits(buf)| {
          assert OctetBits(buf)[i] == Ones(8)[i - |OctetBits(before)|];
        }
      }
    }
  }
}
