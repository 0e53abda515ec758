/** What a Huffman-coded bit sequence means, without any table: section 5.2 of RFC 7541. */
module HuffmanStream {
  import opened Octets
  import opened HuffmanCode

  // ---------------------------------------------------------------- code words in a stream

  // The code word of `s` starts at bit `p` of the stream (which continues with 1s for ever).
  predicate CodeAt(bits: seq<bool>, p: nat, s: byte) {
    Peek(bits, p, EncTable(s).bits) == EncTable(s).value
  }

  // The 30 1s that stand for the end of a string.
  predicate EndCodeAt(bits: seq<bool>, p: nat) {
    Peek(bits, p, 30) == 0x3fff_ffff
  }

  function OctetAt(bits: seq<bool>, p: nat): byte {
    Pow2Values();
    Peek(bits, p, 8)
  }

  function CascadeAt(bits: seq<bool>, p: nat): Step {
    Cascade(OctetAt(bits, p), OctetAt(bits, p + 8), OctetAt(bits, p + 16), OctetAt(bits, p + 24))
  }

  lemma WindowIsPeek(bits: seq<bool>, p: nat)
    ensures Window(OctetAt(bits, p), OctetAt(bits, p + 8), OctetAt(bits, p + 16), OctetAt(bits, p + 24))
            == Peek(bits, p, 32)
  {
    PeekSplit(bits, p, 8, 8);
    ShlValues(Peek(bits, p, 8));
    PeekSplit(bits, p, 16, 8);
    ShlValues(Peek(bits, p, 16));
    PeekSplit(bits, p, 24, 8);
    ShlValues(Peek(bits, p, 24));
  }

  lemma CodeFits(s: byte)
    ensures 5 <= EncTable(s).bits <= 30 && EncTable(s).value < Pow2(EncTable(s).bits)
  {
    CodeShape(s);
    var c := EncTable(s);
    var n := if c.bits <= 8 then 8 else if c.bits <= 15 then 16 else if c.bits <= 24 then 24
             else if c.bits <= 27 then 28 else 30;
    ShlBound(c.value, c.bits, n - c.bits);
    ShlValues(c.value);
    Pow2Wide();
  }

  lemma SpellsIsPeek(bits: seq<bool>, p: nat, c: Code)
    requires c.bits <= 32
    ensures Spells(c, Peek(bits, p, 32), 32) <==> Peek(bits, p, c.bits) == c.value
  {
    var k := 32 - c.bits;
    PeekSplit(bits, p, c.bits, k);
    ShrMaskUnique(Peek(bits, p, c.bits), Peek(bits, p + c.bits, k), k);
  }

  /** The six tables decide the prefix code: they report a symbol exactly when its code word is next ... */
  lemma CascadeRefinesCode(bits: seq<bool>, p: nat, s: byte)
    ensures CascadeAt(bits, p) == Symbol(s, EncTable(s).bits) <==> CodeAt(bits, p, s)
    ensures CascadeAt(bits, p).Symbol? ==> CascadeAt(bits, p).bits == EncTable(CascadeAt(bits, p).octet).bits
  {
    var w0, w1, w2, w3 := OctetAt(bits, p), OctetAt(bits, p + 8), OctetAt(bits, p + 16), OctetAt(bits, p + 24);
    WindowIsPeek(bits, p);
    CodeFits(s);
    SpellsIsPeek(bits, p, EncTable(s));
    CascadeIsSound(w0, w1, w2, w3);
    if CodeAt(bits, p, s) {
      CascadeIsComplete(s, w0, w1, w2, w3);
    }
  }

  /** ... and the end of the string exactly when 30 1s are. */
  lemma CascadeRefinesEnd(bits: seq<bool>, p: nat)
    ensures CascadeAt(bits, p) == EndOfString <==> EndCodeAt(bits, p)
  {
    var w0, w1, w2, w3 := OctetAt(bits, p), OctetAt(bits, p + 8), OctetAt(bits, p + 16), OctetAt(bits, p + 24);
    WindowIsPeek(bits, p);
    Pow2Values();
    PeekSplit(bits, p, 30, 2);
    ShlValues(Peek(bits, p, 30));
    CascadeIsSound(w0, w1, w2, w3);
    if EndCodeAt(bits, p) {
      AllOnesIsTheEnd(w0, w1, w2, w3);
    }
  }

  lemma AllOnesIsTheEnd(w0: byte, w1: byte, w2: byte, w3: byte)
    requires Window(w0, w1, w2, w3) >= 0xffff_fffc
    ensures Cascade(w0, w1, w2, w3) == EndOfString
  {
    assert w0 == 255 && w1 == 255 && w2 == 255 && w3 >= 252;
  }

  /** No two code words start at the same place. */
  lemma PrefixFree(bits: seq<bool>, p: nat, s: byte, t: byte)
    requires CodeAt(bits, p, s) && CodeAt(bits, p, t)
    ensures s == t
  {
    CascadeRefinesCode(bits, p, s);
    CascadeRefinesCode(bits, p, t);
  }

  /** A code word has a zero in it. */
  lemma CodeIsNotAllOnes(bits: seq<bool>, p: nat, s: byte)
    requires forall i :: p <= i < p + EncTable(s).bits ==> BitAt(bits, i)
    ensures !CodeAt(bits, p, s)
  {
    hide EncTable, CascadeAt;
    PeekCongruent(bits, p, [], 0, EncTable(s).bits);
    forall q: nat, n: nat ensures Peek([], q, n) == Pow2(n) - 1 {
      PeekOnes([], q, n);
    }
    Pow2Wide();
    CascadeRefinesEnd([], 0);
    CascadeRefinesCode([], 0, s);
  }

  // ---------------------------------------------------------------- what a stream decodes to

  // The symbols from bit `p` on, up to the padding or the end code.
  ghost function Decoded(bits: seq<bool>, p: nat): seq<byte>
    decreases |bits| - p
  {
    if OnlyPadding(bits, p) then []
    else if s: byte :| CodeAt(bits, p, s) then
      CodeFits(s);
      [s] + Decoded(bits, p + EncTable(s).bits)
    else []
  }

  // Where that reading stops.
  ghost function DecodedEnd(bits: seq<bool>, p: nat): nat
    decreases |bits| - p
  {
    if OnlyPadding(bits, p) then p
    else if s: byte :| CodeAt(bits, p, s) then
      CodeFits(s);
      DecodedEnd(bits, p + EncTable(s).bits)
    else p
  }

  lemma DecodedStep(bits: seq<bool>, p: nat, s: byte)
    requires CodeAt(bits, p, s)
    ensures !OnlyPadding(bits, p)
    ensures Decoded(bits, p) == [s] + Decoded(bits, p + EncTable(s).bits)
    ensures DecodedEnd(bits, p) == DecodedEnd(bits, p + EncTable(s).bits)
  {
    hide CodeAt, EncTable;
    if OnlyPadding(bits, p) {
      CodeIsNotAllOnes(bits, p, s);
    }
    forall t: byte | CodeAt(bits, p, t) ensures t == s {
      PrefixFree(bits, p, s, t);
    }
  }

  function CodeWord(s: byte): (word: seq<bool>)
    ensures |word| == EncTable(s).bits >= 5
  {
    CodeFits(s);
    ToBits(EncTable(s).value, EncTable(s).bits)
  }

  // The code words of a string, one after another.
  function CodeBits(octets: seq<byte>): (bits: seq<bool>)
    ensures |bits| >= 5 * |octets|
  {
    if octets == [] then [] else CodeWord(octets[0]) + CodeBits(octets[1..])
  }

  lemma CodeStarts(before: seq<bool>, s: byte, after: seq<bool>)
    ensures CodeAt(before + CodeWord(s) + after, |before|, s)
  {
    CodeFits(s);
    PeekInside(before, CodeWord(s), after);
    PeekToBits(EncTable(s).value, EncTable(s).bits);
  }

  lemma Regroup(a: seq<bool>, b: seq<bool>, c: seq<bool>, d: seq<bool>)
    ensures a + (b + c) + d == (a + b) + c + d == a + b + (c + d)
  {}

  /** Reading code words and padding gives the string that was coded. */
  lemma {:induction false} DecodedInvertsCodeBits(before: seq<bool>, octets: seq<byte>, pad: nat)
    requires pad < 8
    ensures Decoded(before + CodeBits(octets) + Ones(pad), |before|) == octets
    ensures DecodedEnd(before + CodeBits(octets) + Ones(pad), |before|) == |before + CodeBits(octets)|
    decreases |octets|
  {
    hide CodeAt, EncTable;
    if octets == [] {
      assert OnlyPadding(before + CodeBits(octets) + Ones(pad), |before|);
    } else {
      var s, rest := octets[0], octets[1..];
      var bits := before + CodeBits(octets) + Ones(pad);
      Regroup(before, CodeWord(s), CodeBits(rest), Ones(pad));
      CodeStarts(before, s, CodeBits(rest) + Ones(pad));
      DecodedStep(bits, |before|, s);
      DecodedInvertsCodeBits(before + CodeWord(s), rest, pad);
      assert |before + CodeWord(s)| == |before| + EncTable(s).bits;
      assert [s] + rest == octets;
    }
  }
}
