/** The Huffman encoder: packing code words into octets. */
module HuffmanEncoder {
  import opened Octets
  import opened HuffmanCode
  import opened HuffmanStream
  import opened Number

  // The first `n` octets of a bit sequence that continues with 1s.
  function OctetsOf(bits: seq<bool>, n: nat): (octets: seq<byte>)
    ensures |octets| == n && forall i :: 0 <= i < n ==> octets[i] == OctetAt(bits, 8 * i)
  {
    seq(n, i requires 0 <= i => OctetAt(bits, 8 * i))
  }

  // A bit sequence cut into octets, the last one padded with 1s on the right.
  function Packed(bits: seq<bool>): (octets: seq<byte>)
    ensures |octets| == (|bits| + 7) / 8
  {
    OctetsOf(bits, (|bits| + 7) / 8)
  }

  /** A code word stands where the code words before it end. */
  lemma {:induction false} CodeWordsInPlace(octets: seq<byte>, i: nat)
    requires i < |octets|
    ensures var q := |CodeBits(octets[..i])|;
            && Peek(CodeBits(octets), q, EncTable(octets[i]).bits) == EncTable(octets[i]).value
            && |CodeBits(octets[..i + 1])| == q + EncTable(octets[i]).bits <= |CodeBits(octets)|
  {
    hide EncTable, CodeBits;
    CodeBitsAppend(octets[..i + 1], octets[i + 1..]);
    CodeBitsAppend(octets[..i], [octets[i]]);
    assert octets[..i] + [octets[i]] == octets[..i + 1] && octets[..i + 1] + octets[i + 1..] == octets;
    CodeBitsOne(octets[i]);
    CodeStarts(CodeBits(octets[..i]), octets[i], CodeBits(octets[i + 1..]));
  }

  lemma CodeBitsOne(s: byte)
    ensures CodeBits([s]) == CodeWord(s)
  {
    hide EncTable;
    assert [s][1..] == [];
  }

  lemma CodeBitsCons(s: byte, rest: seq<byte>)
    ensures CodeBits([s] + rest) == CodeWord(s) + CodeBits(rest)
  {
    hide EncTable;
    assert ([s] + rest)[1..] == rest;
  }

  lemma CodeBitsNone()
    ensures CodeBits([]) == []
  {}

  lemma {:induction false} CodeBitsAppend(a: seq<byte>, b: seq<byte>)
    ensures CodeBits(a + b) == CodeBits(a) + CodeBits(b)
  {
    hide *;
    if a == [] {
      CodeBitsNone();
      assert a + b == b;
    } else {
      var s, rest := a[0], a[1..];
      assert a == [s] + rest && a + b == [s] + (rest + b);
      CodeBitsCons(s, rest);
      CodeBitsCons(s, rest + b);
      CodeBitsAppend(rest, b);
      var w, x, y := CodeWord(s), CodeBits(rest), CodeBits(b);
      assert w + (x + y) == (w + x) + y;
    }
  }

  // ---------------------------------------------------------------- the four moves of the packing loop

  /** Completing the partial octet with the top bits of a code. */
  lemma Completed(t: seq<bool>, p: nat, existing: nat, code: nat, bits: nat)
    requires existing <= 8 <= existing + bits
    requires code == Peek(t, p + existing, bits)
    ensures var m := 8 - existing;
            && Or(Shl(Peek(t, p, existing), m), Shr(code, bits - m)) == OctetAt(t, p)
            && Mask(code, bits - m) == Peek(t, p + 8, bits - m)
  {
    hide Pow2, Shl, Shr, Mask, Or, Peek;
    var m := 8 - existing;
    PeekSplit(t, p + existing, m, bits - m);
    ShrMaskUnique(Peek(t, p + existing, m), Peek(t, p + 8, bits - m), bits - m);
    assert p + existing + m == p + 8;
    PeekSplit(t, p, existing, m);
    OrIsSum(Peek(t, p, existing), Peek(t, p + existing, m), m);
  }

  /** Adding a short code to the partial octet. */
  lemma Extended(t: seq<bool>, p: nat, existing: nat, code: nat, bits: nat)
    requires existing + bits <= 8
    requires code == Peek(t, p + existing, bits)
    ensures var room := 8 - (existing + bits);
            Or(Shl(Peek(t, p, existing), 8 - existing), Shl8(code, room)) == Shl(Peek(t, p, existing + bits), room)
  {
    hide *;
    var room := 8 - (existing + bits);
    var a := Peek(t, p, existing);
    Shl8Exact(code, bits, room);
    ShlBound(code, bits, room);
    OrIsSum(a, Shl(code, room), 8 - existing);
    PeekSplit(t, p, existing, bits);
    ShlSum(Shl(a, bits), code, room);
    ShlAdd(a, bits, room);
  }

  lemma Shl8Exact(x: nat, m: nat, n: nat)
    requires x < Pow2(m) && m + n <= 8
    ensures Shl8(x, n) == Shl(x, n)
  {
    hide Pow2, Shl;
    ShlBound(x, m, n);
    ShlBound(Pow2(m + n), 0, 0);
    Pow2Grows(m + n, 8);
    Pow2Values();
  }

  /** A full octet out of the middle of a code. */
  lemma MiddleOctet(t: seq<bool>, p: nat, code: nat, bits: nat)
    requires bits > 8 && Mask(code, bits) == Peek(t, p, bits)
    ensures Shr(code, bits - 8) % 256 == OctetAt(t, p)
    ensures Mask(code, bits - 8) == Peek(t, p + 8, bits - 8)
  {
    hide Pow2, Shl, Shr, Mask, Peek;
    var k := bits - 8;
    ShrMask(code, bits);
    PeekSplit(t, p, 8, k);
    var top, mid, low := Shr(code, bits), Peek(t, p, 8), Peek(t, p + 8, k);
    ShlAdd(top, 8, k);
    ShlSum(Shl(top, 8), mid, k);
    ShrMaskUnique(Shl(top, 8) + mid, low, k);
    ShlValues(top);
    Pow2Values();
  }

  /** The last bits of a code start a new partial octet. */
  lemma LastBits(t: seq<bool>, p: nat, code: nat, bits: nat)
    requires bits <= 8 && Mask(code, bits) == Peek(t, p, bits)
    ensures Shl8(code, 8 - bits) == Shl(Peek(t, p, bits), 8 - bits)
  {
    hide *;
    ShrMask(code, bits);
    Shl8DropsTop(Shr(code, bits), Peek(t, p, bits), 8 - bits);
    assert 8 - (8 - bits) == bits;
  }

  /** Padding the last octet with 1s. */
  lemma PaddedOctet(t: seq<bool>, p: nat, existing: nat)
    requires existing <= 8 && |t| <= p + existing
    ensures Or(Shl(Peek(t, p, existing), 8 - existing), Pow2(8 - existing) - 1) == OctetAt(t, p)
  {
    hide Pow2, Shl, Peek, Or;
    var m := 8 - existing;
    PeekSplit(t, p, existing, m);
    PeekOnes(t, p + existing, m);
    OrIsSum(Peek(t, p, existing), Pow2(m) - 1, m);
  }

  // `before` with the octets `out` written over it from `base` on.
  function Overwritten(before: seq<byte>, base: nat, out: seq<byte>): (after: seq<byte>)
    requires base + |out| <= |before|
    ensures |after| == |before|
  {
    before[..base] + out + before[base + |out|..]
  }

  lemma OverwriteNext(before: seq<byte>, base: nat, out: seq<byte>, x: byte)
    requires base + |out| < |before|
    ensures Overwritten(before, base, out)[base + |out| := x] == Overwritten(before, base, out + [x])
  {}

  // The packing loop's state after `q` bits of `t`: `outi` octets are written, and `existing` more bits (up to 8: the
  // loop can leave a full octet) wait in `partial`.
  ghost predicate Packing(t: seq<bool>, q: nat, before: seq<byte>, now: seq<byte>, base: nat, outi: nat,
                          existing: nat, partial: nat)
  {
    && 8 * outi + existing == q <= |t|
    && existing <= 8
    && partial == (if existing == 0 then 0 else Shl(Peek(t, 8 * outi, existing), 8 - existing))
    && base + outi <= |before|
    && now == Overwritten(before, base, OctetsOf(t, outi))
  }

  lemma PackingPut(t: seq<bool>, before: seq<byte>, now: seq<byte>, base: nat, outi: nat)
    requires base + outi < |before| && now == Overwritten(before, base, OctetsOf(t, outi))
    ensures now[base + outi := OctetAt(t, 8 * outi)] == Overwritten(before, base, OctetsOf(t, outi + 1))
  {
    hide OctetAt, Overwritten;
    OverwriteNext(before, base, OctetsOf(t, outi), OctetAt(t, 8 * outi));
    assert OctetsOf(t, outi + 1) == OctetsOf(t, outi) + [OctetAt(t, 8 * outi)];
  }

  // Append the octet `x`, which is the next one of `t`, unless the room is used up.
  method Put(buf: array<byte>, base: nat, outi: nat, x: nat, ghost t: seq<bool>, ghost before: seq<byte>)
    returns (ok: bool)
    requires |before| == buf.Length && base + outi <= buf.Length && x == OctetAt(t, 8 * outi)
    requires buf[..] == Overwritten(before, base, OctetsOf(t, outi))
    modifies buf
    ensures ok == (base + outi < buf.Length)
    ensures buf[..] == Overwritten(before, base, OctetsOf(t, if ok then outi + 1 else outi))
  {
    if base + outi >= buf.Length {
      return false;
    }
    PackingPut(t, before, buf[..], base, outi);
    buf[base + outi] := x;
    return true;
  }

  // Write the full octets in the middle of a code; `huffcode` keeps the bits already written.
  method PutMiddle(buf: array<byte>, base: nat, outi0: nat, huffcode: nat, bits0: nat,
                   ghost t: seq<bool>, ghost before: seq<byte>)
    returns (ok: bool, outi: nat, bits: nat)
    requires |before| == buf.Length && Packing(t, 8 * outi0, before, buf[..], base, outi0, 0, 0)
    requires 8 * outi0 + bits0 <= |t| && Mask(huffcode, bits0) == Peek(t, 8 * outi0, bits0)
    modifies buf
    ensures Packing(t, 8 * outi, before, buf[..], base, outi, 0, 0)
    ensures ok ==> 8 * outi + bits == 8 * outi0 + bits0 && bits <= 8
    ensures ok ==> Mask(huffcode, bits) == Peek(t, 8 * outi, bits)
    ensures !ok ==> base + outi == buf.Length && 8 * outi < |t|
  {
    hide OctetAt, OctetsOf, Overwritten, Mask, Peek, Shr;
    outi, bits := outi0, bits0;
    while bits > 8
      invariant Packing(t, 8 * outi, before, buf[..], base, outi, 0, 0)
      invariant 8 * outi + bits == 8 * outi0 + bits0 && Mask(huffcode, bits) == Peek(t, 8 * outi, bits)
    {
      MiddleOctet(t, 8 * outi, huffcode, bits);
      ok := Put(buf, base, outi, Shr(huffcode, bits - 8) % 256, t, before);
      if !ok {
        return;
      }
      outi := outi + 1;
      bits := bits - 8;
    }
    ok := true;
  }

  method Encode(input: seq<byte>, buf: array<byte>, base: nat) returns (ret: int)
    requires base <= buf.Length
    modifies buf
    ensures var out := Packed(CodeBits(input));
            var room := buf.Length - base;
            && ret == (if |out| <= room && |out| <= SSIZE_MAX then |out| else -1)
            && buf[..] == Overwritten(old(buf[..]), base, if |out| <= room then out else out[..room])
  {
    hide EncTable, OctetAt, OctetsOf, Overwritten, CodeBits, Peek, Shl, Shl8, Shr, Mask, Or, Pow2;
    ghost var before, t := buf[..], CodeBits(input);
    ghost var q: nat := 0;
    var existingBits: nat, partial: nat, outi: nat, ok := 0, 0, 0, true;
    NothingYet(input, before, base);
    for i := 0 to |input|
      invariant q == |CodeBits(input[..i])|
      invariant Packing(t, q, before, buf[..], base, outi, existingBits, partial)
    {
      CodeWordsInPlace(input, i);
      CodeFits(input[i]);
      var huffcode: nat, bits: nat := EncTable(input[i]).value, EncTable(input[i]).bits;
      ghost var end := q + bits;
      MaskSmall(huffcode, bits);
      if existingBits != 0 {
        if bits + existingBits >= 8 {
          Completed(t, 8 * outi, existingBits, huffcode, bits);
          var m := 8 - existingBits;
          partial := Or(partial, Shr(huffcode, bits - m));
          bits := bits - m;
          huffcode := Mask(huffcode, bits);
          ok := Put(buf, base, outi, partial, t, before);
          if !ok {
            FullRoom(t, outi);
            return -1;
          }
          outi := outi + 1;
          existingBits, partial := 0, 0;
          MaskSmall(huffcode, bits);
        } else {
          Extended(t, 8 * outi, existingBits, huffcode, bits);
          var newPartialBits := 8 - existingBits;
          if newPartialBits > bits {
            newPartialBits := bits;
          }
          partial := Or(partial, Shl8(huffcode, 8 - (existingBits + bits)));
          existingBits := existingBits + newPartialBits;
          bits := bits - newPartialBits;
        }
      }
      if bits > 8 {
        ok, outi, bits := PutMiddle(buf, base, outi, huffcode, bits, t, before);
        if !ok {
          FullRoom(t, outi);
          return -1;
        }
      }
      if bits != 0 {
        LastBits(t, 8 * outi, huffcode, bits);
        existingBits := bits;
        partial := Shl8(huffcode, 8 - bits);
      }
      q := end;
    }
    assert input[..|input|] == input;
    if existingBits != 0 {
      PaddedOctet(t, 8 * outi, existingBits);
      partial := Or(partial, Pow2(8 - existingBits) - 1);
      ok := Put(buf, base, outi, partial, t, before);
      if !ok {
        FullRoom(t, outi);
        return -1;
      }
      outi := outi + 1;
    }
    if outi > SSIZE_MAX {
      return -1;
    }
    return outi;
  }

  lemma FullRoom(t: seq<bool>, room: nat)
    requires 8 * room < |t|
    ensures room < |Packed(t)| && OctetsOf(t, room) == Packed(t)[..room]
  {}

  lemma MaskSmall(x: nat, n: nat)
    requires x < Pow2(n)
    ensures Mask(x, n) == x
  {
    ShrMaskUnique(0, x, n);
    ShlSum(0, 0, n);
  }

  lemma NothingYet(input: seq<byte>, before: seq<byte>, base: nat)
    requires base <= |before|
    ensures CodeBits(input[..0]) == [] && before == Overwritten(before, base, OctetsOf(CodeBits(input), 0))
  {}

  // ---------------------------------------------------------------- what the packed octets spell

  // The first `n` bits of the endless stream.
  function FirstBits(bits: seq<bool>, n: nat): (first: seq<bool>)
    ensures |first| == n
  {
    seq(n, i requires 0 <= i => BitAt(bits, i))
  }

  lemma {:induction false} ToBitsPeek(bits: seq<bool>, p: nat, n: nat)
    ensures FirstBits(bits, p) + ToBits(Peek(bits, p, n), n) == FirstBits(bits, p + n)
  {
    if n != 0 {
      ToBitsPeek(bits, p, n - 1);
      assert FirstBits(bits, p + n) == FirstBits(bits, p + (n - 1)) + [BitAt(bits, p + (n - 1))];
    }
  }

  lemma {:induction false} OctetsOfBits(bits: seq<bool>, n: nat)
    ensures OctetBits(OctetsOf(bits, n)) == FirstBits(bits, 8 * n)
  {
    if n != 0 {
      OctetsOfBits(bits, n - 1);
      ToBitsPeek(bits, 8 * (n - 1), 8);
      assert OctetsOf(bits, n)[..n - 1] == OctetsOf(bits, n - 1);
    }
  }

  /** Packing keeps every bit and adds fewer than eight 1s. */
  lemma PackedBits(bits: seq<bool>)
    ensures var pad := 8 * |Packed(bits)| - |bits|;
            0 <= pad < 8 && OctetBits(Packed(bits)) == bits + Ones(pad)
  {
    OctetsOfBits(bits, |Packed(bits)|);
    var pad := 8 * |Packed(bits)| - |bits|;
    assert FirstBits(bits, 8 * |Packed(bits)|) == bits + Ones(pad);
  }

  // ---------------------------------------------------------------- the whole string literal

  // The payload, and the literal: length with a 7-bit prefix under the Huffman bit, then the payload.
  function Payload(s: seq<byte>): seq<byte> {
    Packed(CodeBits(s))
  }

  function HuffmanForm(s: seq<byte>): seq<byte> {
    NumberOctets(0x80, |Payload(s)|, 7) + Payload(s)
  }

  // Only the payload is checked against the room, behind one prefix octet. Longer prefixes push it along.
  predicate RoomForPrefix(s: seq<byte>, room: nat) {
    |Payload(s)| <= room - 1 ==> |HuffmanForm(s)| <= room
  }

  lemma LengthPrefix(first: byte, other: byte, n: nat)
    ensures |NumberOctets(first, n, 7)| == |NumberOctets(other, n, 7)|
    ensures NumberOctets(first, n, 7)[1..] == NumberOctets(other, n, 7)[1..]
    ensures Or(NumberOctets(first, n, 7)[0], 0x80) == NumberOctets(0x80, n, 7)[0]
    ensures n <= SSIZE_MAX ==> |NumberOctets(first, n, 7)| <= 10
  {
    hide Shl, Mask, Continuation;
    NumberOctetsStart(first, n, 7);
    NumberOctetsStart(other, n, 7);
    NumberOctetsStart(0x80, n, 7);
    AboveSeven(first);
    AboveSeven(0x80);
    Pow2Values();
    var low := if n < 127 then n else 127;
    HighBit(first / 0x80, low);
    if 127 <= n <= SSIZE_MAX {
      SevenBitWeights();
      ContinuationLength(n - 127, 9);
    }
  }

  lemma AboveSeven(first: byte)
    ensures Above(first, 7) == first / 0x80 * 0x80
  {
    ShrValues(first / 2);
    ShlValues(first / 0x80);
    assert Shr(first, 7) == first / 0x80;
  }

  lemma HighBit(top: nat, low: nat)
    requires top <= 1 && low < 0x80
    ensures Or(top * 0x80 + low, 0x80) == 0x80 + low
  {
    OrHigh(top, low, 7);
    ShlValues(top);
    ShlValues(1);
    Pow2Values();
  }

  lemma {:induction false} OrHigh(top: nat, low: nat, n: nat)
    requires top <= 1 && low < Pow2(n)
    ensures Or(Shl(top, n) + low, Shl(1, n)) == Shl(1, n) + low
  {
    if n != 0 && Shl(top, n) + low != 0 { OrHigh(top, low / 2, n - 1); }
  }

  // `overran` says that the payload is moved past the end of the buffer. There is no promise then.
  method HuffmanEncode(input: seq<byte>, buf: array<byte>) returns (ret: int, overran: bool)
    modifies buf
    ensures overran <==> !RoomForPrefix(input, buf.Length) && |HuffmanForm(input)| <= SSIZE_MAX
    ensures var out := HuffmanForm(input);
            !overran ==>
              if |Payload(input)| <= buf.Length - 1 && |out| <= SSIZE_MAX
              then ret == |out| <= buf.Length && buf[..ret] == out && buf[ret..] == old(buf[..])[ret..]
              else ret == -1
  {
    hide Pow2, Or, Continuation, NumberOctets, Payload, Overwritten;
    if buf.Length < 1 {
      return -1, false;
    }
    ghost var before, payload := buf[..], PayloadOf(input);
    var len := Encode(input, buf, 1);
    if len < 0 {
      return len, false;
    }
    OverwrittenAt(before, 1, payload);
    var encodedNumber := new byte[10];
    ghost var junk := encodedNumber[0];
    LengthPrefix(junk, 0x80, len);
    var nlen := EncodeNumber(len, 7, encodedNumber);
    if nlen < 0 {
      return nlen, false;
    }
    if SSIZE_MAX - len < nlen {
      return -1, false;
    }
    if nlen + len > buf.Length {
      return nlen + len, true;
    }
    PutPrefix(buf, encodedNumber[..nlen], len);
    SetHuffmanBit(junk, len);
    return nlen + len, false;
  }

  ghost function PayloadOf(s: seq<byte>): (payload: seq<byte>)
    ensures payload == Payload(s) == Packed(CodeBits(s))
  {
    Payload(s)
  }

  // Move the payload behind the prefix, put the prefix in front and set its Huffman bit.
  method PutPrefix(buf: array<byte>, prefix: seq<byte>, len: nat)
    requires prefix != [] && |prefix| + len <= buf.Length && Or(prefix[0], 0x80) < 256
    modifies buf
    ensures buf[..] == [Or(prefix[0], 0x80) as byte] + prefix[1..] + old(buf[1..1 + len]) + old(buf[|prefix| + len..])
  {
    hide Or;
    if |prefix| > 1 {
      forall i | 0 <= i < len {
        buf[|prefix| + i] := buf[1 + i];
      }
    }
    forall i | 0 <= i < |prefix| {
      buf[i] := prefix[i];
    }
    buf[0] := Or(buf[0], 0x80);
  }

  lemma SetHuffmanBit(first: byte, n: nat)
    ensures var head := NumberOctets(first, n, 7);
            Or(head[0], 0x80) < 256 && [Or(head[0], 0x80) as byte] + head[1..] == NumberOctets(0x80, n, 7)
  {
    hide NumberOctets, Or;
    LengthPrefix(first, 0x80, n);
    var flagged := NumberOctets(0x80, n, 7);
    assert flagged == [flagged[0]] + flagged[1..];
  }

  lemma OverwrittenAt(before: seq<byte>, base: nat, out: seq<byte>)
    requires base + |out| <= |before|
    ensures var after := Overwritten(before, base, out);
            after[base..base + |out|] == out && after[base + |out|..] == before[base + |out|..]
  {}
}
