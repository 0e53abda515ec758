/** Integers with an N-bit prefix: section 5.1 of RFC 7541. */
module Number {
  import opened Octets

  const MAX_OCTETS := 10
  const PROTOCOL_ERROR := 1
  const INTERNAL_ERROR := 2

  function MaskFromBits(bits: nat): (mask: nat)
    requires bits <= 8
    ensures mask == Pow2(bits) - 1 <= 255
  {
    Pow2Values();
    ShrValues(0xff);
    assert Shr(0xff, 7) == 1 && Shr(0xff, 8) == 0;
    Shr(0xff, 8 - bits)
  }

  // ---------------------------------------------------------------- the format

  // Seven bits an octet, least significant first; the top bit says that more follow.
  function Continuation(n: nat): (octets: seq<byte>)
    ensures |octets| >= 1
  {
    if n < 0x80 then [n] else [0x80 + n % 0x80] + Continuation(n / 0x80)
  }

  // The bits of `first` above the prefix.
  function Above(first: byte, bits: nat): nat
    requires 1 <= bits <= 8
  {
    Shl(Shr(first, bits), bits)
  }

  // `n` with a prefix of `bits` bits, under the bits already in `first`.
  function NumberOctets(first: byte, n: nat, bits: nat): (octets: seq<byte>)
    requires 1 <= bits <= 8
    ensures |octets| >= 1
  {
    var mask := MaskFromBits(bits);
    ShrMask(first, bits);
    AboveRoom(first, bits);
    if n < mask then [Above(first, bits) + n] else [Above(first, bits) + mask] + Continuation(n - mask)
  }

  lemma AboveRoom(first: byte, bits: nat)
    requires 1 <= bits <= 8
    ensures Above(first, bits) + Pow2(bits) <= 256
  {
    Pow2Values();
    ShrMask(first, bits);
    Pow2Add(8 - bits, bits);
    var top := Shr(first, bits);
    ShlCompare(Pow2(8 - bits), top, Mask(first, bits), bits);
    ShlCompare(top + 1, Pow2(8 - bits), 0, bits);
    ShlSum(top, 1, bits);
    ShlIsPow2(bits);
  }

  datatype Reading = Value(n: nat, used: nat) | Malformed(code: int)

  // The exact number in at most `room` continuation octets.
  function ReadTail(s: seq<byte>, room: nat): Reading
    requires room > 0
  {
    if s == [] then Malformed(-PROTOCOL_ERROR)
    else if s[0] < 0x80 then Value(s[0], 1)
    else if room == 1 then Malformed(-INTERNAL_ERROR)
    else
      match ReadTail(s[1..], room - 1)
      case Value(v, used) => Value(s[0] - 0x80 + 0x80 * v, used + 1)
      case Malformed(code) => Malformed(code)
  }

  // The exact number at the start of `buf`, and how many octets it takes.
  function Read(buf: seq<byte>, bits: nat): Reading {
    if |buf| == 0 || bits > 8 then Malformed(-PROTOCOL_ERROR)
    else if Mask(buf[0], bits) != MaskFromBits(bits) then Value(Mask(buf[0], bits), 1)
    else
      match ReadTail(buf[1..], MAX_OCTETS)
      case Value(v, used) => Value(MaskFromBits(bits) + v, used + 1)
      case Malformed(code) => Malformed(code)
  }

  // ---------------------------------------------------------------- the decoder

  // A reading resumed after `i` octets that contributed `acc`, with weight 2^(7(i-1)) for the next one.
  function Resumed(acc: nat, mult: nat, i: nat, tail: Reading): Reading {
    match tail
    case Value(v, used) => Value(acc + Times(v, mult), i + used)
    case Malformed(code) => Malformed(code)
  }

  lemma ResumeNext(acc: nat, mult: nat, i: nat, s: seq<byte>, room: nat)
    requires room > 0 && s != []
    ensures s[0] < 0x80 ==> Resumed(acc, mult, i, ReadTail(s, room)) == Value(acc + Times(s[0], mult), i + 1)
    ensures s[0] >= 0x80 && room == 1 ==> Resumed(acc, mult, i, ReadTail(s, room)) == Malformed(-INTERNAL_ERROR)
    ensures s[0] >= 0x80 && room > 1 ==>
              Resumed(acc, mult, i, ReadTail(s, room))
              == Resumed(acc + Times(s[0] % 0x80, mult), 0x80 * mult, i + 1, ReadTail(s[1..], room - 1))
  {
    if s[0] >= 0x80 && room > 1 {
      match ReadTail(s[1..], room - 1)
      case Value(v, used) =>
        Distribute(s[0] - 0x80, v, mult);
      case Malformed(_) =>
    }
  }

  lemma Distribute(f: nat, v: nat, mult: nat)
    ensures (f + 0x80 * v) * mult == f * mult + v * (0x80 * mult)
  {}

  lemma Weights(i: nat)
    requires 1 <= i <= 10
    ensures var mult := Pow2(7 * (i - 1));
            && 0x80 * mult == Pow2(7 * i)
            && (i < 10 ==> mult <= 0x80 * mult < U64)
            && (i == 10 ==> 0x80 * mult % U64 < mult)
  {
    Pow2Add(7 * (i - 1), 7);
    ShlValues(Pow2(7 * (i - 1)));
    SevenBitWeights();
  }

  lemma SevenBitWeights()
    ensures Pow2(0) == 1 && Pow2(7) == 0x80 && Pow2(14) == 0x4000 && Pow2(21) == 0x20_0000 && Pow2(28) == 0x1000_0000
    ensures Pow2(35) == 0x8_0000_0000 && Pow2(42) == 0x400_0000_0000 && Pow2(49) == 0x2_0000_0000_0000
    ensures Pow2(56) == 0x100_0000_0000_0000 && Pow2(63) == 0x8000_0000_0000_0000
    ensures Pow2(70) == 0x40_0000_0000_0000_0000
  {
  }

  method DecodeNumber(buf: seq<byte>, bits: nat) returns (ret: int, number: nat)
    ensures match Read(buf, bits)
            case Value(n, used) => ret == used && number == n % U64
            case Malformed(code) => ret == code
  {
    hide Pow2, Read, ReadTail, Mask, MaskFromBits, Resumed, Times;
    number := 0;
    ReadStarts(buf, bits);
    if |buf| == 0 || bits > 8 {
      return -PROTOCOL_ERROR, number;
    }
    var mask := MaskFromBits(bits);
    var field := Mask(buf[0], bits);
    number := field;
    if field != mask {
      return 1, number; // the prefix holds it all
    }
    var mult: nat, i: nat := 1, 1;
    ghost var acc: nat, tail := 0, ReadTail(buf[1..], MAX_OCTETS);
    ResumeAtStart(tail);
    while i < |buf| && i <= MAX_OCTETS
      invariant 1 <= i <= |buf| && i <= MAX_OCTETS && mult == Pow2(7 * (i - 1)) && number == (mask + acc) % U64
      invariant tail == Resumed(acc, mult, i - 1, ReadTail(buf[i..], MAX_OCTETS + 1 - i))
    {
      ResumeNext(acc, mult, i - 1, buf[i..], MAX_OCTETS + 1 - i);
      Weights(i);
      field := buf[i] % 0x80;
      var contribution: nat := Times(field, mult);
      AddWrapped(mask + acc, contribution);
      number := (number + contribution) % U64;
      acc := acc + contribution;
      if buf[i] < 0x80 {
        return i + 1, number;
      }
      if mult * 0x80 % U64 < mult {
        return -INTERNAL_ERROR, number;
      }
      mult := mult * 0x80 % U64;
      i := i + 1;
    }
    ResumeAtEnd(acc, mult, i - 1, MAX_OCTETS + 1 - i);
    return -PROTOCOL_ERROR, number; // no last octet in sight
  }

  function Times(a: nat, b: nat): nat {
    a * b
  }

  lemma ReadStarts(buf: seq<byte>, bits: nat)
    ensures |buf| == 0 || bits > 8 ==> Read(buf, bits) == Malformed(-PROTOCOL_ERROR)
    ensures |buf| > 0 && bits <= 8 ==>
              && Mask(buf[0], bits) < U64
              && Read(buf, bits)
                 == if Mask(buf[0], bits) != MaskFromBits(bits) then Value(Mask(buf[0], bits), 1)
                    else match ReadTail(buf[1..], MAX_OCTETS)
                         case Value(v, used) => Value(MaskFromBits(bits) + v, used + 1)
                         case Malformed(code) => Malformed(code)
  {
    hide ReadTail, Mask;
    if bits <= 8 { Pow2Grows(bits, 8); Pow2Values(); }
  }

  lemma ResumeAtStart(tail: Reading)
    ensures Pow2(0) == 1 && Resumed(0, 1, 0, tail) == tail
  {}

  lemma ResumeAtEnd(acc: nat, mult: nat, i: nat, room: nat)
    requires room > 0
    ensures Resumed(acc, mult, i, ReadTail([], room)) == Malformed(-PROTOCOL_ERROR)
  {}

  lemma AddWrapped(x: nat, y: nat)
    ensures (x % U64 + y) % U64 == (x + y) % U64
  {}

  // ---------------------------------------------------------------- the encoder

  /** Setting every bit of the prefix. */
  lemma {:induction false} OrOnes(x: nat, n: nat)
    ensures Or(x, Pow2(n) - 1) == Shl(Shr(x, n), n) + Pow2(n) - 1
  {
    if n != 0 {
      OrOnes(x / 2, n - 1);
      assert (Pow2(n) - 1) / 2 == Pow2(n - 1) - 1;
      if x == 0 { ShrOfZero(n); }
    }
  }

  lemma {:induction false} ShrOfZero(n: nat)
    ensures Shl(Shr(0, n), n) == 0
  {
    ShrMask(0, n);
  }

  lemma FirstOctet(first: byte, number: nat, bits: nat)
    requires 1 <= bits <= 8
    ensures Mask(first, bits) <= first
    ensures number < MaskFromBits(bits) ==> Or(first - Mask(first, bits), number) == Above(first, bits) + number < 256
    ensures Or(first, MaskFromBits(bits)) == Above(first, bits) + MaskFromBits(bits) < 256
  {
    hide Pow2, Shl, Shr, Mask, Or;
    AboveRoom(first, bits);
    ShrMask(first, bits);
    OrOnes(first, bits);
    if number < MaskFromBits(bits) {
      OrIsSum(Shr(first, bits), number, bits);
    }
  }

  lemma ContinuationOctet(n: nat)
    ensures Or(0x80, n % 0x80) == 0x80 + n % 0x80 < 256
  {
    OrIsSum(1, n % 0x80, 7);
    ShlValues(1);
    Pow2Values();
  }

  lemma NumberOctetsStart(first: byte, n: nat, bits: nat)
    requires 1 <= bits <= 8
    ensures var out, mask := NumberOctets(first, n, bits), MaskFromBits(bits);
            if n < mask then out == [Above(first, bits) + n]
            else out[0] == Above(first, bits) + mask && out[1..] == Continuation(n - mask)
  {}

  method EncodeNumber(number: nat, prefixBits: nat, buf: array<byte>) returns (ret: int)
    requires number < U64
    modifies buf
    ensures !(1 <= prefixBits <= 8 && buf.Length > 0) ==> ret == -1 && buf[..] == old(buf[..])
    ensures 1 <= prefixBits <= 8 && buf.Length > 0 ==>
              var out := NumberOctets(old(buf[0]), number, prefixBits);
              && ret == (if |out| <= buf.Length then |out| else -1)
              && buf[..] == if |out| <= buf.Length then out + old(buf[..])[|out|..] else out[..buf.Length]
  {
    hide Pow2, Or, Mask, Above, Continuation, NumberOctets, Spliced, MaskFromBits;
    if buf.Length == 0 || prefixBits > 8 || prefixBits < 1 {
      return -1;
    }
    FirstOctet(buf[0], number, prefixBits);
    ghost var before, out := buf[..], NumberOctets(buf[0], number, prefixBits);
    var mask := MaskFromBits(prefixBits);
    if number < mask {
      NumberOctetsStart(buf[0], number, prefixBits);
      buf[0] := Or(buf[0] - Mask(buf[0], prefixBits), number);
      return 1;
    }
    buf[0] := Or(buf[0], mask);
    NumberOctetsStart(before[0], number, prefixBits);
    SplicedAll(out, before);
    SpliceNext(out, before, 0);
    var n: nat, octet: nat := number - mask, 0;
    while n >= 0x80
      invariant octet < buf.Length && octet < |out| && out[octet + 1..] == Continuation(n)
      invariant buf[..] == Spliced(out, before, octet + 1)
    {
      octet := octet + 1;
      ContinuationStep(n);
      TailStep(out, octet);
      if octet >= buf.Length {
        return -1;
      }
      ContinuationOctet(n);
      SpliceNext(out, before, octet);
      buf[octet] := Or(0x80, n % 0x80);
      n := n / 0x80;
    }
    octet := octet + 1;
    ContinuationStep(n);
    TailStep(out, octet);
    if octet >= buf.Length {
      return -1;
    }
    SpliceNext(out, before, octet);
    buf[octet] := n;
    return octet + 1;
  }

  // The first `k` octets of `out`, then what was there before.
  function Spliced(out: seq<byte>, before: seq<byte>, k: nat): seq<byte>
    requires k <= |out| && k <= |before|
  {
    out[..k] + before[k..]
  }

  lemma SpliceNext(out: seq<byte>, before: seq<byte>, k: nat)
    requires k < |out| && k < |before|
    ensures Spliced(out, before, k)[k := out[k]] == Spliced(out, before, k + 1)
    ensures k == 0 ==> Spliced(out, before, 0) == before
    ensures k + 1 == |out| ==> Spliced(out, before, k + 1) == out + before[|out|..]
  {}

  lemma SplicedAll(out: seq<byte>, before: seq<byte>)
    ensures |before| <= |out| ==> Spliced(out, before, |before|) == out[..|before|]
  {}

  lemma TailStep(out: seq<byte>, k: nat)
    requires k < |out|
    ensures out[k] == out[k..][0] && out[k + 1..] == out[k..][1..]
  {}

  lemma ContinuationStep(n: nat)
    ensures Continuation(n) == if n < 0x80 then [n] else [0x80 + n % 0x80] + Continuation(n / 0x80)
  {}

  // ---------------------------------------------------------------- the laws

  lemma {:induction false} ContinuationLength(n: nat, k: nat)
    requires k >= 1 && n < Pow2(7 * k)
    ensures |Continuation(n)| <= k
  {
    ContinuationStep(n);
    if n >= 0x80 {
      Pow2Values();
      assert k > 1;
      SevenMore(k - 1);
      ContinuationLength(n / 0x80, k - 1);
    }
  }

  lemma SevenMore(k: nat)
    ensures Pow2(7 * (k + 1)) == 0x80 * Pow2(7 * k)
  {
    Pow2Add(7 * k, 7);
    ShlValues(Pow2(7 * k));
  }

  lemma {:induction false} ReadTailInvertsContinuation(n: nat, tail: seq<byte>, room: nat)
    requires |Continuation(n)| <= room
    ensures ReadTail(Continuation(n) + tail, room) == Value(n, |Continuation(n)|)
  {
    ContinuationStep(n);
    if n >= 0x80 {
      var rest := Continuation(n / 0x80);
      ReadTailInvertsContinuation(n / 0x80, tail, room - 1);
      assert (Continuation(n) + tail)[1..] == rest + tail;
    }
  }

  /** Numbers below 2^70 survive encoding, in at most 11 octets, and the bits above the prefix are left alone. */
  lemma NumberRoundTrip(first: byte, n: nat, bits: nat, tail: seq<byte>)
    requires n < Pow2(70) && 1 <= bits <= 8
    ensures var out := NumberOctets(first, n, bits);
            && Read(out + tail, bits) == Value(n, |out|)
            && |out| <= MAX_OCTETS + 1
            && Shr(out[0], bits) == Shr(first, bits)
  {
    hide Pow2, Shr, Shl, Mask, ReadTail, Continuation, NumberOctets;
    NumberOctetsStart(first, n, bits);
    var mask, out := MaskFromBits(bits), NumberOctets(first, n, bits);
    if n < mask {
      ShrMaskUnique(Shr(first, bits), n, bits);
    } else {
      ShrMaskUnique(Shr(first, bits), mask, bits);
      ContinuationLength(n - mask, 10);
      ReadTailInvertsContinuation(n - mask, tail, MAX_OCTETS);
      assert (out + tail)[1..] == out[1..] + tail;
    }
  }

  lemma {:induction false} ShortestTail(s: seq<byte>, room: nat)
    requires room > 0 && ReadTail(s, room).Value?
    ensures var r := ReadTail(s, room);
            |Continuation(r.n)| <= r.used <= room && r.n < Pow2(7 * r.used)
  {
    var r := ReadTail(s, room);
    ContinuationStep(r.n);
    if s[0] >= 0x80 {
      ShortestTail(s[1..], room - 1);
      SevenMore(r.used - 1);
      assert r.n / 0x80 == ReadTail(s[1..], room - 1).n;
    } else {
      SevenBitWeights();
    }
  }

  /** No octet string shorter than its encoding decodes to a number. */
  lemma EncodingIsShortest(buf: seq<byte>, bits: nat, first: byte)
    requires 1 <= bits <= 8 && Read(buf, bits).Value?
    ensures |NumberOctets(first, Read(buf, bits).n % U64, bits)| <= Read(buf, bits).used
  {
    hide Pow2, Shr, Shl, ReadTail, Continuation, NumberOctets;
    var mask, r := MaskFromBits(bits), Read(buf, bits);
    NumberOctetsStart(first, r.n % U64, bits);
    SevenBitWeights();
    if Mask(buf[0], bits) == mask {
      ShortestTail(buf[1..], MAX_OCTETS);
      if r.n >= U64 {
        NumberRoundTrip(first, r.n % U64, bits, []);
        if r.used < 11 { Pow2Grows(7 * (r.used - 1), 63); }
      }
    }
  }

  /** Above 64 bits the decoder reports no error and loses the top bits: it is exact just below 2^64. */
  lemma BigNumbersWrap(first: byte, n: nat, bits: nat, tail: seq<byte>)
    requires U64 <= n < Pow2(70) && 1 <= bits <= 8
    ensures Read(NumberOctets(first, n, bits) + tail, bits) == Value(n, MAX_OCTETS + 1) && n % U64 != n
  {
    hide Pow2, Shr, Shl, Mask, ReadTail, Continuation, NumberOctets;
    var out := NumberOctets(first, n, bits);
    NumberRoundTrip(first, n, bits, tail);
    SevenBitWeights();
    var mask := MaskFromBits(bits);
    if Mask((out + tail)[0], bits) == mask {
      ShortestTail((out + tail)[1..], MAX_OCTETS);
      if |out| < 11 { Pow2Grows(7 * (|out| - 1), 63); }
    }
  }

  /** No number is read just where it does not end within ten octets behind a full prefix. */
  lemma ReadFailsExactly(buf: seq<byte>, bits: nat)
    requires 1 <= bits <= 8 && buf != []
    ensures Read(buf, bits).Malformed? <==>
            Mask(buf[0], bits) == Pow2(bits) - 1 && forall i :: 1 <= i <= 10 && i < |buf| ==> buf[i] >= 0x80
    ensures Read(buf, bits).Malformed? ==> Read(buf, bits).code == if |buf| <= 10 then -1 else -2
  {
    hide Mask, ReadTail, Pow2;
    var s := buf[1..];
    TailFailsExactly(s, 10);
    assert (forall i :: 0 <= i < 10 && i < |s| ==> s[i] >= 0x80) <==>
           forall i :: 1 <= i <= 10 && i < |buf| ==> buf[i] >= 0x80 by {
      assert forall i :: 1 <= i < |buf| ==> buf[i] == s[i - 1];
      assert forall i :: 0 <= i < |s| ==> s[i] == buf[i + 1];
    }
  }

  lemma {:induction false} TailFailsExactly(s: seq<byte>, room: nat)
    requires room > 0
    ensures ReadTail(s, room).Malformed? <==> forall i :: 0 <= i < room && i < |s| ==> s[i] >= 0x80
    ensures ReadTail(s, room).Malformed? ==> ReadTail(s, room).code == if |s| < room then -1 else -2
  {
    if s != [] && s[0] >= 0x80 && room > 1 {
      TailFailsExactly(s[1..], room - 1);
      assert forall i :: 1 <= i < |s| ==> s[i] == s[1..][i - 1];
    }
  }

  /** The examples of section C.1 of RFC 7541. */
  lemma Examples()
    ensures NumberOctets(0, 10, 5) == [0x0a] && NumberOctets(0, 1337, 5) == [0x1f, 0x9a, 0x0a]
    ensures NumberOctets(0, 42, 8) == [0x2a]
  {
    hide Mask;
    NumberOctetsStart(0, 10, 5);
    NumberOctetsStart(0, 1337, 5);
    NumberOctetsStart(0, 42, 8);
    ShrValues(0);
    ShlValues(0);
    Pow2Values();
    ContinuationStep(1306);
    ContinuationStep(10);
    ShrOfZero(5);
    ShrOfZero(8);
    var out := NumberOctets(0, 1337, 5);
    assert out == [out[0]] + out[1..];
  }
}
