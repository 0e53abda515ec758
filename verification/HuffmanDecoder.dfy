/** The table-driven Huffman decoder. */
module HuffmanDecoder {
  import opened Octets
  import opened HuffmanCode
  import opened HuffmanStream
  import opened BitReader

  // The octet in the reader's window.
  method PeekOctetOf(reader: Reader) returns (octet: byte)
    requires reader.Valid() && reader.Position() >= 0
    ensures octet == OctetAt(reader.Input(), reader.Position())
  {
    reader.Windows();
    octet := reader.octet;
  }

  // One pass of the decode loop: look up the next octets until a table knows the symbol.
  method Pass(reader: Reader) returns (step: Step)
    requires reader.Valid() && reader.Position() >= 0
    modifies reader
    ensures reader.Valid()
    ensures step == CascadeAt(reader.Input(), old(reader.Position()))
    ensures step.Symbol? ==> reader.Position() == old(reader.Position()) + step.bits
  {
    hide Reader.Valid, OctetAt, ShortBits0, ShortBits1Ff, ShortBits2Fffe, ShortBits2Ffff, ShortBits23, ShortBits3;
    var octet := PeekOctetOf(reader);
    var sym := ShortBits0(octet);
    if sym.octet != SENTINEL {
      var _ := reader.Next(sym.bits);
      return Symbol(sym.octet, sym.bits);
    }
    var _ := reader.Next(8);
    if octet == 0xfe {
      octet := PeekOctetOf(reader);
      var _ := reader.Next(2);
      return Symbol(BRANCHES_OFF_FE[octet / 64], 10);
    }
    octet := PeekOctetOf(reader);
    sym := ShortBits1Ff(octet);
    if sym.octet != SENTINEL {
      var _ := reader.Next(sym.bits % 8);
      return Symbol(sym.octet, sym.bits);
    }
    var _ := reader.Next(8);
    step := LongPass(reader, octet);
  }

  // The rest of the pass, behind two octets of which only the second can be 0xfe.
  method LongPass(reader: Reader, second: byte) returns (step: Step)
    requires reader.Valid() && reader.Position() >= 0 && second >= 0xfe
    modifies reader
    ensures reader.Valid()
    ensures var p := old(reader.Position());
            step == Cascade(0xff, second, OctetAt(reader.Input(), p), OctetAt(reader.Input(), p + 8))
    ensures step.Symbol? ==> reader.Position() == old(reader.Position()) + step.bits - 16
  {
    hide Reader.Valid, Reader.Input, OctetAt, ShortBits0, ShortBits1Ff, ShortBits2Fffe, ShortBits2Ffff, ShortBits23;
    hide ShortBits3, Peek;
    var octet := PeekOctetOf(reader);
    if second == 0xfe {
      var sym := ShortBits2Fffe(octet);
      var _ := reader.Next(sym.bits % 8);
      return Symbol(sym.octet, sym.bits);
    }
    var sym := ShortBits2Ffff(octet);
    if sym.octet != SENTINEL {
      // Of the longest code words here, all eight bits of the third octet are used.
      var _ := reader.Next(sym.bits - 16);
      return Symbol(sym.octet, sym.bits);
    }
    var _ := reader.Next(8);
    var last := PeekOctetOf(reader);
    if octet != 0xfe && octet != 0xff {
      sym := ShortBits23(octet % 16 * 16 + last / 16);
      var _ := reader.Next(sym.bits % 8);
      return Symbol(sym.octet, sym.bits);
    }
    sym := ShortBits3(octet % 2 * 64 + last / 4);
    if sym.octet != SENTINEL {
      var _ := reader.Next(sym.bits % 8);
      return Symbol(sym.octet, sym.bits);
    }
    return EndOfString;
  }

  // What the decoder returns for a destination of `room` octets.
  ghost function Verdict(bits: seq<bool>, p: nat, room: nat): int {
    var n := |Decoded(bits, p)|;
    if n < room || (n == room && OnlyPadding(bits, DecodedEnd(bits, p))) then n else -1
  }

  lemma PassDecodes(bits: seq<bool>, p: nat)
    requires !OnlyPadding(bits, p)
    ensures match CascadeAt(bits, p)
            case Symbol(s, n) => n >= 5 && Decoded(bits, p) == [s] + Decoded(bits, p + n)
                                 && DecodedEnd(bits, p) == DecodedEnd(bits, p + n)
            case EndOfString => Decoded(bits, p) == [] && DecodedEnd(bits, p) == p
  {
    hide EncTable, CascadeAt, CodeAt, OnlyPadding;
    match CascadeAt(bits, p)
    case Symbol(s, n) =>
      CascadeRefinesCode(bits, p, s);
      CodeFits(s);
      DecodedStep(bits, p, s);
    case EndOfString =>
      forall s: byte ensures !CodeAt(bits, p, s) {
        CascadeRefinesCode(bits, p, s);
      }
  }

  lemma PaddedOrNot(bits: seq<bool>, p: nat)
    ensures OnlyPadding(bits, p) ==> Decoded(bits, p) == [] && DecodedEnd(bits, p) == p
    ensures !OnlyPadding(bits, p) ==> p < |bits|
  {}

  lemma StopsAtEnd(bits: seq<bool>, p: nat)
    requires !OnlyPadding(bits, p)
    ensures Decoded(bits, p) == [] ==> DecodedEnd(bits, p) == p
  {}

  method HuffmanDecode(buf: seq<byte>, firstOctetBits: nat, dest: array<byte>) returns (ret: int)
    modifies dest
    ensures !(1 <= firstOctetBits <= 8) ==> ret == -3 && dest[..] == old(dest[..])
    ensures 1 <= firstOctetBits <= 8 ==>
              var bits, p := OctetBits(buf), 8 - firstOctetBits;
              var d := Decoded(bits, p);
              var n := if |d| <= dest.Length then |d| else dest.Length;
              && ret == Verdict(bits, p, dest.Length)
              && dest[..n] == d[..n] && dest[n..] == old(dest[n..])
  {
    hide Reader.Valid, Decoded, DecodedEnd, CascadeAt, OctetBits, OnlyPadding;
    if firstOctetBits < 1 || firstOctetBits > 8 {
      return -3;
    }
    var reader := new Reader(buf);
    if firstOctetBits != 8 {
      var _ := reader.Next(8 - firstOctetBits);
    }
    ghost var bits, p := OctetBits(buf), 8 - firstOctetBits;
    ghost var all := Decoded(bits, p);
    var n := 0;
    while n != dest.Length
      invariant fresh(reader) && reader.Valid() && reader.data == buf && reader.Position() >= 0
      invariant n <= dest.Length && n <= |all| && dest[..n] == all[..n]
      invariant forall i :: n <= i < dest.Length ==> dest[i] == old(dest[i])
      invariant all[n..] == Decoded(bits, reader.Position())
      invariant DecodedEnd(bits, p) == DecodedEnd(bits, reader.Position())
      decreases dest.Length - n
    {
      reader.Windows();
      if reader.Eos() {
        PaddedOrNot(bits, reader.Position());
        assert |all[n..]| == 0 && dest[n..] == old(dest[n..]);
        return n;
      }
      ghost var q := reader.Position();
      PassDecodes(bits, q);
      var step := Pass(reader);
      if step.EndOfString? {
        assert |all[n..]| == 0 && dest[n..] == old(dest[n..]);
        return n;
      }
      assert all[n] == all[n..][0] == step.octet;
      dest[n] := step.octet;
      assert all[n + 1..] == all[n..][1..];
      n := n + 1;
    }
    reader.Windows();
    assert dest[n..] == old(dest[n..]);
    if reader.Eos() {
      PaddedOrNot(bits, reader.Position());
      assert |all[n..]| == 0;
      return n;
    }
    StopsAtEnd(bits, reader.Position());
    return -1; // symbols are left over
  }

  // ---------------------------------------------------------------- what the decoder promises

  /** Every symbol takes at least five bits and starts inside the input. */
  lemma {:induction false} DecodedLength(bits: seq<bool>, p: nat)
    ensures DecodedEnd(bits, p) >= p + 5 * |Decoded(bits, p)|
    ensures Decoded(bits, p) != [] ==> 5 * (|Decoded(bits, p)| - 1) < |bits| - p
    decreases |bits| - p
  {
    PaddedOrNot(bits, p);
    hide *;
    if !OnlyPadding(bits, p) {
      PassDecodes(bits, p);
      if CascadeAt(bits, p).Symbol? {
        DecodedLength(bits, p + CascadeAt(bits, p).bits);
      }
    }
  }

  /** A destination of 8n/5 + 1 octets is never too small for n octets of input, well-formed or not. */
  lemma EnoughRoom(buf: seq<byte>, p: nat, room: nat)
    requires room >= 8 * |buf| / 5 + 1
    ensures Verdict(OctetBits(buf), p, room) == |Decoded(OctetBits(buf), p)| <= room
  {
    DecodedLength(OctetBits(buf), p);
  }

  /** Input that is a string's code words and less than an octet of padding decodes to that string, if it fits. */
  lemma DecodesCodeBits(buf: seq<byte>, octets: seq<byte>, pad: nat, room: nat)
    requires OctetBits(buf) == CodeBits(octets) + Ones(pad) && pad < 8
    ensures Decoded(OctetBits(buf), 0) == octets
    ensures Verdict(OctetBits(buf), 0, room) == if |octets| <= room then |octets| else -1
  {
    hide Decoded, DecodedEnd, CodeBits, OctetBits;
    DecodedInvertsCodeBits([], octets, pad);
    assert [] + CodeBits(octets) + Ones(pad) == OctetBits(buf) && [] + CodeBits(octets) == CodeBits(octets);
  }
}
