/** Octets, C's shifts, masks and ORs on unsigned numbers, and the bit sequences they stand for. */
module Octets {

  type byte = b: int | 0 <= b < 256

  // One more than the largest unsigned numbers of 32 and 64 bits, and the largest sizes.
  const U32 := 0x1_0000_0000
  const U64 := 0x1_0000_0000_0000_0000
  const SIZE_MAX := 0xffff_ffff_ffff_ffff
  const SSIZE_MAX := 0x7fff_ffff_ffff_ffff

  // The octets of an ASCII literal.
  function Ascii(s: string): seq<byte> {
    seq(|s|, i requires 0 <= i < |s| => s[i] as int % 256)
  }

  // What all reads bring together.
  function Concat(chunks: seq<seq<byte>>): seq<byte> {
    if chunks == [] then [] else Concat(chunks[..|chunks| - 1]) + chunks[|chunks| - 1]
  }

  function Pow2(n: nat): (p: nat)
    ensures p > 0
  {
    if n == 0 then 1 else 2 * Pow2(n - 1)
  }

  // `x << n`, with nothing lost on the left.
  function Shl(x: nat, n: nat): nat {
    if n == 0 then x else 2 * Shl(x, n - 1)
  }

  // `(uint8_t)(x << n)`.
  function Shl8(x: nat, n: nat): byte {
    Shl(x, n) % 256
  }

  // `x >> n`.
  function Shr(x: nat, n: nat): nat {
    if n == 0 then x else Shr(x / 2, n - 1)
  }

  // `x & ((1 << n) - 1)`.
  function Mask(x: nat, n: nat): (y: nat)
    ensures y < Pow2(n)
  {
    if n == 0 then 0 else 2 * Mask(x / 2, n - 1) + x % 2
  }

  // `a | b`, bit by bit.
  function Or(a: nat, b: nat): nat {
    if a == 0 then b
    else if b == 0 then a
    else (if a % 2 == 1 || b % 2 == 1 then 1 else 0) + 2 * Or(a / 2, b / 2)
  }

  lemma Pow2Values()
    ensures Pow2(0) == 1 && Pow2(1) == 2 && Pow2(2) == 4 && Pow2(3) == 8 && Pow2(4) == 16
    ensures Pow2(5) == 32 && Pow2(6) == 64 && Pow2(7) == 128 && Pow2(8) == 256
  {}

  lemma ShlValues(x: nat)
    ensures Shl(x, 0) == x && Shl(x, 1) == 2 * x && Shl(x, 2) == 4 * x && Shl(x, 3) == 8 * x && Shl(x, 4) == 16 * x
    ensures Shl(x, 5) == 32 * x && Shl(x, 6) == 64 * x && Shl(x, 7) == 128 * x && Shl(x, 8) == 256 * x
  {}

  lemma ShrValues(x: nat)
    ensures Shr(x, 0) == x && Shr(x, 1) == x / 2 && Shr(x, 2) == x / 4 && Shr(x, 3) == x / 8
    ensures Shr(x, 4) == x / 16 && Shr(x, 5) == x / 32 && Shr(x, 6) == x / 64
  {}

  lemma {:induction false} ShlIsPow2(n: nat)
    ensures Shl(1, n) == Pow2(n)
  {
    if n != 0 { ShlIsPow2(n - 1); }
  }

  lemma {:induction false} ShlAdd(x: nat, m: nat, n: nat)
    ensures Shl(Shl(x, m), n) == Shl(x, m + n)
  {
    if n != 0 {
      ShlAdd(x, m, n - 1);
      assert m + n - 1 == m + (n - 1);
    }
  }

  lemma Pow2Add(m: nat, n: nat)
    ensures Pow2(m + n) == Shl(Pow2(m), n)
  {
    ShlIsPow2(m);
    ShlIsPow2(m + n);
    ShlAdd(1, m, n);
  }

  lemma {:induction false} Pow2Grows(m: nat, n: nat)
    requires m <= n
    ensures Pow2(m) <= Pow2(n)
  {
    if m < n { Pow2Grows(m, n - 1); }
  }

  lemma {:induction false} ShlSum(x: nat, y: nat, n: nat)
    ensures Shl(x + y, n) == Shl(x, n) + Shl(y, n)
  {
    if n != 0 { ShlSum(x, y, n - 1); }
  }

  /** Fewer than `n` low bits never change how shifted numbers compare. */
  lemma {:induction false} ShlCompare(x: nat, w: nat, low: nat, n: nat)
    requires low < Pow2(n)
    ensures Shl(x, n) <= Shl(w, n) + low <==> x <= w
  {
    if n != 0 { ShlCompare(x, w, low / 2, n - 1); }
  }

  lemma {:induction false} ShlBound(x: nat, m: nat, n: nat)
    ensures x < Pow2(m) <==> Shl(x, n) < Pow2(m + n)
  {
    ShlCompare(Pow2(m), x, 0, n);
    Pow2Add(m, n);
  }

  lemma Pow2Wide()
    ensures Pow2(8) == 0x100 && Pow2(16) == 0x1_0000 && Pow2(24) == 0x100_0000 && Pow2(28) == 0x1000_0000
    ensures Pow2(30) == 0x4000_0000
  {
    Pow2Add(8, 8);
    ShlValues(0x100);
    Pow2Add(16, 8);
    ShlValues(0x1_0000);
    Pow2Add(24, 4);
    ShlValues(0x100_0000);
    Pow2Add(28, 2);
    ShlValues(0x1000_0000);
  }

  /** A number is its high bits and its low ones. */
  lemma {:induction false} ShrMask(x: nat, n: nat)
    ensures x == Shl(Shr(x, n), n) + Mask(x, n)
  {
    if n != 0 { ShrMask(x / 2, n - 1); }
  }

  lemma {:induction false} ShrMaskUnique(top: nat, low: nat, n: nat)
    requires low < Pow2(n)
    ensures Shr(Shl(top, n) + low, n) == top && Mask(Shl(top, n) + low, n) == low
  {
    if n != 0 {
      ShrMaskUnique(top, low / 2, n - 1);
      assert (Shl(top, n) + low) / 2 == Shl(top, n - 1) + low / 2;
    }
  }

  lemma {:induction false} ShrAdd(x: nat, m: nat, n: nat)
    ensures Shr(Shr(x, n), m) == Shr(x, m + n)
  {
    if n != 0 {
      ShrAdd(x / 2, m, n - 1);
      assert m + n - 1 == m + (n - 1);
    }
  }

  /** Shifting left drops the top `n` of 8 bits. */
  lemma Shl8DropsTop(top: nat, rest: nat, n: nat)
    requires n <= 8 && rest < Pow2(8 - n)
    ensures Shl8(Shl(top, 8 - n) + rest, n) == Shl(rest, n)
  {
    ShlSum(Shl(top, 8 - n), rest, n);
    assert Shl(Shl(top, 8 - n), n) == 256 * top by {
      ShlAdd(top, 8 - n, n);
      ShlValues(top);
    }
    assert Shl(rest, n) < 256 by {
      ShlBound(rest, 8 - n, n);
      Pow2Values();
    }
  }

  /** ORing in fewer bits than are clear on the right is an addition. */
  lemma {:induction false} OrIsSum(hi: nat, lo: nat, n: nat)
    requires lo < Pow2(n)
    ensures Or(Shl(hi, n), lo) == Shl(hi, n) + lo
  {
    if n != 0 && Shl(hi, n) != 0 && lo != 0 {
      OrIsSum(hi, lo / 2, n - 1);
    }
  }

  // ---------------------------------------------------------------- bit sequences

  // The low `n` bits of `v`, most significant first.
  function ToBits(v: nat, n: nat): (bits: seq<bool>)
    ensures |bits| == n
  {
    if n == 0 then [] else ToBits(v / 2, n - 1) + [v % 2 == 1]
  }

  function Ones(n: nat): (bits: seq<bool>)
    ensures |bits| == n && forall i :: 0 <= i < n ==> bits[i]
  {
    seq(n, _ => true)
  }

  function OctetBits(octets: seq<byte>): (bits: seq<bool>)
    ensures |bits| == 8 * |octets|
  {
    if octets == [] then [] else OctetBits(octets[..|octets| - 1]) + ToBits(octets[|octets| - 1], 8)
  }

  lemma OctetBitsOne(x: byte)
    ensures OctetBits([x]) == ToBits(x, 8)
  {
    assert [x][..0] == [];
  }

  lemma {:induction false} OctetBitsAppend(a: seq<byte>, b: seq<byte>)
    ensures OctetBits(a + b) == OctetBits(a) + OctetBits(b)
  {
    if b == [] {
      assert a + b == a;
    } else {
      var c := b[..|b| - 1];
      OctetBitsAppend(a, c);
      assert (a + b)[..|a + b| - 1] == a + c;
    }
  }

  /** The high bits of a number, then the low ones. */
  lemma {:induction false} ToBitsSplit(v: nat, m: nat, n: nat)
    ensures ToBits(v, m + n) == ToBits(Shr(v, n), m) + ToBits(Mask(v, n), n)
  {
    if n != 0 {
      ToBitsSplit(v / 2, m, n - 1);
      assert m + n - 1 == m + (n - 1);
      assert Mask(v, n) / 2 == Mask(v / 2, n - 1) && Mask(v, n) % 2 == v % 2;
    }
  }

  lemma {:induction false} ToBitsOnes(n: nat)
    ensures ToBits(Pow2(n) - 1, n) == Ones(n)
  {
    if n != 0 {
      ToBitsOnes(n - 1);
      assert (Pow2(n) - 1) / 2 == Pow2(n - 1) - 1;
    }
  }

  // ---------------------------------------------------------------- reading at a position

  // Bit `i` of a sequence that continues with 1s for ever.
  function BitAt(bits: seq<bool>, i: nat): bool {
    i < |bits| ==> bits[i]
  }

  // The number spelled by the `n` bits at position `p`.
  function Peek(bits: seq<bool>, p: nat, n: nat): (v: nat)
    ensures v < Pow2(n)
  {
    if n == 0 then 0 else 2 * Peek(bits, p, n - 1) + (if BitAt(bits, p + (n - 1)) then 1 else 0)
  }

  lemma {:induction false} PeekSplit(bits: seq<bool>, p: nat, m: nat, n: nat)
    ensures Peek(bits, p, m + n) == Shl(Peek(bits, p, m), n) + Peek(bits, p + m, n)
  {
    if n != 0 {
      PeekSplit(bits, p, m, n - 1);
      assert m + n - 1 == m + (n - 1);
      assert p + (m + (n - 1)) == (p + m) + (n - 1);
    }
  }

  /** Only the bits looked at matter. */
  lemma {:induction false} PeekCongruent(a: seq<bool>, p: nat, b: seq<bool>, q: nat, n: nat)
    requires forall i :: p <= i < p + n ==> BitAt(a, i) == BitAt(b, i - p + q)
    ensures Peek(a, p, n) == Peek(b, q, n)
  {
    if n != 0 { PeekCongruent(a, p, b, q, n - 1); }
  }

  lemma {:induction false} PeekOnes(bits: seq<bool>, p: nat, n: nat)
    ensures Peek(bits, p, n) == Pow2(n) - 1 <==> forall i :: p <= i < p + n ==> BitAt(bits, i)
  {
    if n != 0 { PeekOnes(bits, p, n - 1); }
  }

  lemma {:induction false} PeekToBits(v: nat, n: nat)
    requires v < Pow2(n)
    ensures Peek(ToBits(v, n), 0, n) == v
  {
    if n != 0 {
      PeekToBits(v / 2, n - 1);
      PeekCongruent(ToBits(v, n), 0, ToBits(v / 2, n - 1), 0, n - 1);
    }
  }

  lemma PeekInside(a: seq<bool>, b: seq<bool>, c: seq<bool>)
    ensures Peek(a + b + c, |a|, |b|) == Peek(b, 0, |b|)
  {
    PeekCongruent(a + b + c, |a|, b, 0, |b|);
  }

  /** Octet `i` of a string is what a reader finds at bit 8i. */
  lemma PeekOctet(octets: seq<byte>, i: nat)
    requires i < |octets|
    ensures Peek(OctetBits(octets), 8 * i, 8) == octets[i]
  {
    var a, x, c := octets[..i], octets[i], octets[i + 1..];
    assert octets == a + [x] + c;
    OctetBitsAppend(a + [x], c);
    OctetBitsAppend(a, [x]);
    OctetBitsOne(x);
    PeekInside(OctetBits(a), ToBits(x, 8), OctetBits(c));
    Pow2Values();
    PeekToBits(x, 8);
  }

  // At most eight bits remain and all of them are 1s.
  predicate OnlyPadding(bits: seq<bool>, p: nat) {
    |bits| <= p + 8 && forall i :: p <= i < |bits| ==> BitAt(bits, i)
  }
}
