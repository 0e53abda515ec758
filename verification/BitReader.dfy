/** The bit reader under the Huffman decoder: an octet, part of the next one, and the end of the string. */
module BitReader {
  import opened Octets

  class Reader {
    const data: seq<byte>
    var octet: nat
    var next: nat
    var nextBits: nat
    var eosAfterBits: int
    var pos: nat

    // How many bits have gone by, counting the two empty octets that initialisation pushes through.
    ghost var gone: nat
    // How many octets have been loaded, counting those two and any past the end.
    ghost var loads: nat

    constructor (data: seq<byte>)
      ensures this.data == data
      ensures Valid() && Position() == 0
    {
      this.data := data;
      octet, next, nextBits, eosAfterBits, pos := 0, 0, 8, -1, 0;
      gone, loads := 0, 2;
      new;
      LeadingZeros(data);
      // The two empty octets make way for the first two of the input.
      LoadNext(8);
      LoadNext(8);
    }

    ghost function Input(): seq<bool> {
      OctetBits(data)
    }

    ghost function Stream(): (bits: seq<bool>)
      ensures |bits| == 16 + 8 * |data|
    {
      OctetBits([0, 0] + data)
    }

    ghost function Position(): int
      reads this
    {
      gone - 16
    }

    // The input bits not yet gone by.
    ghost function Remaining(): nat
      reads this
    {
      if gone >= |Stream()| then 0 else |Stream()| - gone
    }

    ghost predicate Valid()
      reads this
    {
      && octet == Peek(Stream(), gone, 8)
      && 1 <= nextBits <= 8
      && next == Shl(Peek(Stream(), gone + 8, nextBits), 8 - nextBits)
      && eosAfterBits == (if Remaining() > 8 then -1 else Remaining())
      && pos <= |data|
      && gone + 8 + nextBits == 8 * loads
      && if eosAfterBits == -1 then loads == 2 + pos else pos == |data| && loads > 2 + |data|
    }

    // Drop `discard` bits and refill.
    method LoadNext(discard: nat)
      requires Valid() && 1 <= discard <= 8
      modifies this
      ensures Valid() && gone == old(gone) + discard
    {
      hide Peek, Shl, Shl8, Shr, Or, Pow2, OctetBits, Reader.Stream;
      ghost var bits, p := Stream(), gone;
      if nextBits <= discard {
        LoadedBits();
        RefillByLoading(bits, p, discard, nextBits, octet, next, Peek(bits, p + 8 + nextBits, 8));
      } else {
        RefillByShifting(bits, p, discard, nextBits, octet, next);
      }
      octet := Shl8(octet, discard);
      if nextBits <= discard {
        var loaded;
        if pos == |data| {
          if eosAfterBits == -1 {
            eosAfterBits := 8 + nextBits;
          }
          loaded := 0xff;
        } else {
          loaded := data[pos];
          pos := pos + 1;
        }
        octet := Or(octet, Shr(next, 8 - discard));
        octet := Or(octet, Shr(loaded, 8 - discard + nextBits));
        next := Shl8(loaded, discard - nextBits);
        nextBits := 8 - (discard - nextBits);
        loads := loads + 1;
      } else {
        octet := Or(octet, Shr(next, 8 - discard));
        next := Shl8(next, discard);
        nextBits := nextBits - discard;
      }
      if eosAfterBits != -1 {
        if discard > eosAfterBits {
          eosAfterBits := 0;
        } else {
          eosAfterBits := eosAfterBits - discard;
        }
      }
      gone := gone + discard;
    }

    method Next(seekBits: nat) returns (window: nat)
      requires Valid() && 1 <= seekBits <= 8
      modifies this
      ensures Valid() && Position() == old(Position()) + seekBits && window == octet
    {
      LoadNext(seekBits);
      window := octet;
    }

    predicate Eos()
      reads this
    {
      if eosAfterBits == -1 then false
      else if eosAfterBits == 0 then true
      // The first test is for a second octet of 1s; the reader always stands closer to the end than that.
      else (eosAfterBits > 8 ==> TopOnes(next, eosAfterBits % 8)) && TopOnes(octet, eosAfterBits)
    }

    /** `octet` is the window at the position read up to, and `Eos` tells whether only padding is left. */
    lemma Windows()
      requires Valid() && Position() >= 0
      ensures octet == Peek(Input(), Position(), 8) < 256
      ensures next == Shl(Peek(Input(), Position() + 8, nextBits), 8 - nextBits)
      ensures eosAfterBits == -1 <==> |Input()| - Position() > 8
      ensures Eos() <==> OnlyPadding(Input(), Position())
    {
      PastLeadingZeros(data, Position(), 8);
      PastLeadingZeros(data, Position() + 8, nextBits);
      Pow2Values();
      if eosAfterBits > 0 {
        TopOnesIsPadding(Input(), Position(), eosAfterBits);
      }
    }

    // What the next load finds: an input octet, or 1s past the end.
    lemma LoadedBits()
      requires Valid()
      ensures Peek(Stream(), gone + 8 + nextBits, 8) == if pos == |data| then 0xff else data[pos]
    {
      var all := [0, 0] + data;
      if pos == |data| {
        Pow2Values();
        PeekOnes(Stream(), gone + 8 + nextBits, 8);
      } else {
        PeekOctet(all, pos + 2);
      }
    }
  }

  // `(x & mask) == mask` for the mask of the top `k` of 8 bits.
  predicate TopOnes(x: nat, k: int) {
    0 <= k <= 8 && Shr(x, 8 - k) == Pow2(k) - 1
  }

  lemma LeadingZeros(data: seq<byte>)
    ensures Peek(OctetBits([0, 0] + data), 0, 8) == 0 && Peek(OctetBits([0, 0] + data), 8, 8) == 0
  {
    PeekOctet([0, 0] + data, 0);
    PeekOctet([0, 0] + data, 1);
  }

  lemma PastLeadingZeros(data: seq<byte>, p: nat, n: nat)
    ensures Peek(OctetBits([0, 0] + data), 16 + p, n) == Peek(OctetBits(data), p, n)
  {
    OctetBitsAppend([0, 0], data);
    PeekCongruent(OctetBits([0, 0] + data), 16 + p, OctetBits(data), p, n);
  }

  lemma TopOnesIsPadding(bits: seq<bool>, p: nat, k: nat)
    requires k <= 8 && p + k == |bits|
    ensures TopOnes(Peek(bits, p, 8), k) <==> OnlyPadding(bits, p)
  {
    ShiftOctet(bits, p, k);
    PeekOnes(bits, p, k);
  }

  /** The parts of the refilled octet, when an octet is loaded ... */
  lemma LoadedParts(bits: seq<bool>, p: nat, d: nat, nb: nat)
    requires 1 <= nb <= d <= 8
    ensures var a, b, c := Peek(bits, p + d, 8 - d), Peek(bits, p + 8, nb), Peek(bits, p + 8 + nb, d - nb);
            Peek(bits, p + d, 8) == Shl(Shl(a, nb) + b, d - nb) + c == Shl(a, d) + Shl(b, d - nb) + c
  {
    hide *;
    var a, b := Peek(bits, p + d, 8 - d), Peek(bits, p + 8, nb);
    PeekSplit(bits, p + d, 8 - d, nb);
    assert p + d + (8 - d) == p + 8;
    PeekSplit(bits, p + d, 8 - d + nb, d - nb);
    assert p + d + (8 - d + nb) == p + 8 + nb;
    ShlSum(Shl(a, nb), b, d - nb);
    ShlAdd(a, nb, d - nb);
  }

  lemma OrParts(a: nat, b: nat, c: nat, d: nat, nb: nat)
    requires 1 <= nb <= d <= 8 && b < Pow2(nb) && c < Pow2(d - nb)
    ensures Or(Or(Shl(a, d), Shl(b, d - nb)), c) == Shl(a, d) + Shl(b, d - nb) + c
  {
    hide *;
    ShlBound(b, nb, d - nb);
    OrIsSum(a, Shl(b, d - nb), d);
    ShlSum(Shl(a, nb), b, d - nb);
    ShlAdd(a, nb, d - nb);
    OrIsSum(Shl(a, nb) + b, c, d - nb);
  }

  /** Dropping `d` bits of an octet leaves the others on the left. */
  lemma ShiftOctet(bits: seq<bool>, p: nat, d: nat)
    requires d <= 8
    ensures Shl8(Peek(bits, p, 8), d) == Shl(Peek(bits, p + d, 8 - d), d)
    ensures Shr(Peek(bits, p, 8), 8 - d) == Peek(bits, p, d)
  {
    hide *;
    PeekSplit(bits, p, d, 8 - d);
    Shl8DropsTop(Peek(bits, p, d), Peek(bits, p + d, 8 - d), d);
    ShrMaskUnique(Peek(bits, p, d), Peek(bits, p + d, 8 - d), 8 - d);
  }

  lemma RefillByLoading(bits: seq<bool>, p: nat, d: nat, nb: nat, octet: nat, next: nat, loaded: nat)
    requires 1 <= nb <= d <= 8
    requires octet == Peek(bits, p, 8) && next == Shl(Peek(bits, p + 8, nb), 8 - nb)
    requires loaded == Peek(bits, p + 8 + nb, 8)
    ensures Or(Or(Shl8(octet, d), Shr(next, 8 - d)), Shr(loaded, 8 - d + nb)) == Peek(bits, p + d, 8)
    ensures Shl8(loaded, d - nb) == Shl(Peek(bits, p + d + 8, 8 - (d - nb)), d - nb)
  {
    hide *;
    var b := Peek(bits, p + 8, nb);
    ShiftOctet(bits, p, d);
    ShiftOctet(bits, p + 8 + nb, d - nb);
    assert Shr(next, 8 - d) == Shl(b, d - nb) by {
      ShlAdd(b, d - nb, 8 - d);
      ShrMaskUnique(Shl(b, d - nb), 0, 8 - d);
    }
    LoadedParts(bits, p, d, nb);
    OrParts(Peek(bits, p + d, 8 - d), b, Peek(bits, p + 8 + nb, d - nb), d, nb);
    assert 8 - (d - nb) == 8 - d + nb;
    assert p + 8 + nb + (d - nb) == p + d + 8;
  }

  /** ... and when the partly used one has enough bits. */
  lemma RefillByShifting(bits: seq<bool>, p: nat, d: nat, nb: nat, octet: nat, next: nat)
    requires 1 <= d < nb <= 8
    requires octet == Peek(bits, p, 8) && next == Shl(Peek(bits, p + 8, nb), 8 - nb)
    ensures Or(Shl8(octet, d), Shr(next, 8 - d)) == Peek(bits, p + d, 8)
    ensures Shl8(next, d) == Shl(Peek(bits, p + d + 8, nb - d), 8 - (nb - d))
  {
    hide *;
    var k := nb - d;
    var a, b1, b2 := Peek(bits, p + d, 8 - d), Peek(bits, p + 8, d), Peek(bits, p + 8 + d, k);
    ShiftOctet(bits, p, d);
    assert next == Shl(b1, 8 - d) + Shl(b2, 8 - nb) by {
      PeekSplit(bits, p + 8, d, k);
      ShlSum(Shl(b1, k), b2, 8 - nb);
      ShlAdd(b1, k, 8 - nb);
    }
    ShlBound(b2, k, 8 - nb);
    ShrMaskUnique(b1, Shl(b2, 8 - nb), 8 - d);
    Shl8DropsTop(b1, Shl(b2, 8 - nb), d);
    ShlAdd(b2, 8 - nb, d);
    OrIsSum(a, b1, d);
    PeekSplit(bits, p + d, 8 - d, d);
    assert p + d + (8 - d) == p + 8;
  }
}
