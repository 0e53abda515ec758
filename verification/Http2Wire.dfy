/**
 * The wire formats of HTTP/2 frame headers (section 4.1 of RFC 7540) and SETTINGS payloads (section 6.5.1).
 *
 * The readers take octets from a `char` buffer. Whether `char` is signed is up to the platform, so every reader has a
 * parameter for it: a signed octet of 0x80 or more drags 1s into the bits above it.
 */
module Http2Wire {
  import opened Wrappers
  import opened Octets
  import opened Number

  // ---------------------------------------------------------------- joining octets

  // `static_cast<uint32_t>(c)` for a char.
  function FromChar(x: byte, signed: bool): nat {
    if signed && x >= 0x80 then U32 - 0x100 + x else x
  }

  // `x << n` on 32 bits.
  function Shl32(x: nat, n: nat): nat {
    Shl(x, n) % U32
  }

  function Join(a: byte, b: byte, c: byte, d: byte, signed: bool): nat {
    Or(Or(Or(Shl32(FromChar(a, signed), 24), Shl32(FromChar(b, signed), 16)), Shl32(FromChar(c, signed), 8)),
       Shl32(FromChar(d, signed), 0))
  }

  function BigEndian(a: byte, b: byte, c: byte, d: byte): nat {
    ((a * 0x100 + b) * 0x100 + c) * 0x100 + d
  }

  // No octet drags 1s over a zero.
  predicate SignSafe(a: byte, b: byte, c: byte, d: byte) {
    && (b >= 0x80 ==> a == 0xff)
    && (c >= 0x80 ==> a == b == 0xff)
    && (d >= 0x80 ==> a == b == c == 0xff)
  }

  lemma {:induction false} ShlZero(x: nat, n: nat)
    ensures Shl(x, n) == 0 <==> x == 0
  {
    if n != 0 { ShlZero(x, n - 1); }
  }

  lemma {:induction false} OrSplit(a: nat, b: nat, low: nat, n: nat)
    requires low < Pow2(n)
    ensures Or(Shl(a, n), Shl(b, n) + low) == Shl(Or(a, b), n) + low
  {
    ShlZero(a, n);
    ShlZero(b, n);
    if n != 0 && Shl(a, n) != 0 && Shl(b, n) + low != 0 {
      OrSplit(a, b, low / 2, n - 1);
    }
  }

  /** Shifting by whole octets. */
  lemma ShlOctets(x: nat)
    ensures Shl(x, 0) == x && Shl(x, 8) == x * 0x100 && Shl(x, 16) == x * 0x1_0000 && Shl(x, 24) == x * 0x100_0000
    ensures Shl(x, 32) == x * U32
  {
    ShlValues(x);
    ShlValues(x * 0x100);
    ShlValues(x * 0x1_0000);
    ShlValues(x * 0x100_0000);
    ShlAdd(x, 8, 8);
    ShlAdd(x, 16, 8);
    ShlAdd(x, 24, 8);
  }

  lemma Pow2Octets()
    ensures Pow2(0) == 1 && Pow2(8) == 0x100 && Pow2(16) == 0x1_0000 && Pow2(24) == 0x100_0000 && Pow2(32) == U32
  {
    hide Shl;
    ShlOctets(1);
    ShlIsPow2(0);
    ShlIsPow2(8);
    ShlIsPow2(16);
    ShlIsPow2(24);
    ShlIsPow2(32);
  }

  // How far an octet at bit `n` is from the top of the word.
  predicate OctetShift(n: nat, scale: nat, above: nat) {
    (n, scale, above) in
      {(0, 1, 0x100_0000), (8, 0x100, 0x1_0000), (16, 0x1_0000, 0x100), (24, 0x100_0000, 1)}
  }

  lemma ShiftedChar(x: byte, n: nat, scale: nat, above: nat, signed: bool)
    requires OctetShift(n, scale, above)
    ensures Shl32(FromChar(x, signed), n)
            == (if signed && x >= 0x80 then (above - 1) * (scale * 0x100) else 0) + x * scale
  {
    hide Shl;
    ShlOctets(FromChar(x, signed));
  }

  /** ORing an octet in under clear bits, with the 1s that a signed octet drags along. */
  lemma JoinOctet(h: nat, x: byte, n: nat, scale: nat, above: nat, signed: bool)
    requires OctetShift(n, scale, above) && h < above
    ensures Or(h * (scale * 0x100), Shl32(FromChar(x, signed), n))
            == (if signed && x >= 0x80 then above - 1 else h) * (scale * 0x100) + x * scale
  {
    hide Shl, Pow2, Or, Shl32, FromChar;
    ShiftedChar(x, n, scale, above, signed);
    var ones := if signed && x >= 0x80 then above - 1 else 0;
    ShlOctets(h);
    ShlOctets(ones);
    ShlOctets(Or(h, ones));
    Pow2Octets();
    OrSplit(h, ones, x * scale, n + 8);
    OrFull(h, 24 - n);
    assert n in {0, 8, 16, 24};
  }

  lemma OrFull(h: nat, m: nat)
    requires h < Pow2(m)
    ensures Or(h, Pow2(m) - 1) == Pow2(m) - 1 && Or(h, 0) == h
  {
    OrOnes(h, m);
    ShrMaskUnique(0, h, m);
    ShlZero(0, m);
  }

  // What the reader makes of four octets.
  function Joined(a: byte, b: byte, c: byte, d: byte, signed: bool): nat {
    if signed && d >= 0x80 then BigEndian(0xff, 0xff, 0xff, d)
    else if signed && c >= 0x80 then BigEndian(0xff, 0xff, c, d)
    else if signed && b >= 0x80 then BigEndian(0xff, b, c, d)
    else BigEndian(a, b, c, d)
  }

  lemma JoinIsJoined(a: byte, b: byte, c: byte, d: byte, signed: bool)
    ensures Join(a, b, c, d, signed) == Joined(a, b, c, d, signed)
  {
    hide Shl, Shl32, Or, FromChar;
    ShiftedChar(a, 24, 0x100_0000, 1, signed);
    var h1 := a;
    JoinOctet(h1, b, 16, 0x1_0000, 0x100, signed);
    var h2 := (if signed && b >= 0x80 then 0xff else h1) * 0x100 + b;
    JoinOctet(h2, c, 8, 0x100, 0x1_0000, signed);
    var h3 := (if signed && c >= 0x80 then 0xffff else h2) * 0x100 + c;
    JoinOctet(h3, d, 0, 1, 0x100_0000, signed);
  }

  /** The octets are read as they were written if and only if `char` is unsigned or no sign bit gets in the way. */
  lemma JoinInvertsBigEndian(a: byte, b: byte, c: byte, d: byte, signed: bool)
    ensures Join(a, b, c, d, signed) == BigEndian(a, b, c, d) <==> !signed || SignSafe(a, b, c, d)
  {
    hide Join;
    JoinIsJoined(a, b, c, d, signed);
  }

  // The octet at bit `8 * k` of a number, as a narrowing cast of the shifted number leaves it.
  function OctetOf(x: nat, k: nat): byte
    requires k <= 3
  {
    (if k == 0 then x else if k == 1 then x / 0x100 else if k == 2 then x / 0x1_0000 else x / 0x100_0000) % 0x100
  }

  lemma OctetsOfWord(x: nat)
    requires x < U32
    ensures BigEndian(OctetOf(x, 3), OctetOf(x, 2), OctetOf(x, 1), OctetOf(x, 0)) == x
  {
    var y := x / 0x100;
    var z := y / 0x100;
    assert x == y * 0x100 + OctetOf(x, 0);
    assert y == z * 0x100 + OctetOf(x, 1) by { assert OctetOf(x, 1) == y % 0x100; }
    assert z == OctetOf(x, 3) * 0x100 + OctetOf(x, 2) by {
      assert OctetOf(x, 2) == z % 0x100;
      assert OctetOf(x, 3) == z / 0x100;
    }
  }

  predicate SignSafeWord(x: nat) {
    SignSafe(OctetOf(x, 3), OctetOf(x, 2), OctetOf(x, 1), OctetOf(x, 0))
  }

  // ---------------------------------------------------------------- frame headers

  const FRAME_HEADER_SIZE := 9

  datatype FrameHeader = FrameHeader(length: nat, frameType: byte, flags: byte, reserved: bool, streamId: nat)
  {
    // The widths of the bit fields.
    predicate Fits() {
      length < 0x100_0000 && streamId < 0x8000_0000
    }

    function ReservedAndStreamId(): nat {
      (if reserved then 0x8000_0000 else 0) + streamId
    }

    function Wire(): (octets: seq<byte>)
      ensures |octets| == FRAME_HEADER_SIZE
    {
      var id := ReservedAndStreamId();
      [OctetOf(length, 2), OctetOf(length, 1), OctetOf(length, 0), frameType, flags,
       OctetOf(id, 3), OctetOf(id, 2), OctetOf(id, 1), OctetOf(id, 0)]
    }

    // Neither the length's octets nor the stream id's trip over their sign bits.
    predicate SignSafeHeader() {
      && (OctetOf(length, 1) >= 0x80 ==> OctetOf(length, 2) == 0xff)
      && (OctetOf(length, 0) >= 0x80 ==> OctetOf(length, 2) == OctetOf(length, 1) == 0xff)
      && SignSafeWord(ReservedAndStreamId())
    }
  }

  // The length is a bit field of 24 bits: what lies above is cut off.
  function HeaderFromOctets(s: seq<byte>, signed: bool): (h: FrameHeader)
    requires |s| == FRAME_HEADER_SIZE
    ensures h.Fits()
  {
    var id := Join(s[5], s[6], s[7], s[8], signed);
    FrameHeader(Join(0, s[0], s[1], s[2], signed) % 0x100_0000, s[3], s[4], id / 0x8000_0000 % 2 == 1, id % 0x8000_0000)
  }

  /** Frame headers survive writing and reading if and only if `char` is unsigned or the octets are safe. */
  lemma FrameHeaderRoundTrip(h: FrameHeader, signed: bool)
    requires h.Fits()
    ensures HeaderFromOctets(h.Wire(), signed) == h <==> !signed || h.SignSafeHeader()
  {
    hide Join, OctetOf, BigEndian, SignSafe;
    var id := h.ReservedAndStreamId();
    LengthRoundTrip(h.length, signed);
    OctetsOfWord(id);
    JoinInvertsBigEndian(OctetOf(id, 3), OctetOf(id, 2), OctetOf(id, 1), OctetOf(id, 0), signed);
    JoinFits(OctetOf(id, 3), OctetOf(id, 2), OctetOf(id, 1), OctetOf(id, 0), signed);
    SplitId(h.reserved, h.streamId, Join(OctetOf(id, 3), OctetOf(id, 2), OctetOf(id, 1), OctetOf(id, 0), signed));
  }

  // A word is its top bit and the rest.
  lemma SplitId(reserved: bool, streamId: nat, word: nat)
    requires streamId < 0x8000_0000 && word < U32
    ensures word == (if reserved then 0x8000_0000 else 0) + streamId
            <==> word % 0x8000_0000 == streamId && ((word / 0x8000_0000 % 2 == 1) <==> reserved)
  {}

  lemma JoinFits(a: byte, b: byte, c: byte, d: byte, signed: bool)
    ensures Join(a, b, c, d, signed) < U32
  {
    hide Join;
    JoinIsJoined(a, b, c, d, signed);
  }

  // Octets read with an unsigned `char` survive reading and writing.
  lemma HeaderOctetsRoundTrip(s: seq<byte>)
    requires |s| == FRAME_HEADER_SIZE
    ensures HeaderFromOctets(s, false).Wire() == s
  {
    hide Join, OctetOf, BigEndian;
    JoinIsJoined(0, s[0], s[1], s[2], false);
    JoinIsJoined(s[5], s[6], s[7], s[8], false);
    OctetsOfBigEndian(0, s[0], s[1], s[2]);
    OctetsOfBigEndian(s[5], s[6], s[7], s[8]);
    SplitId(BigEndian(s[5], s[6], s[7], s[8]) / 0x8000_0000 == 1, BigEndian(s[5], s[6], s[7], s[8]) % 0x8000_0000,
            BigEndian(s[5], s[6], s[7], s[8]));
  }

  lemma OctetsOfBigEndian(a: byte, b: byte, c: byte, d: byte)
    ensures var x := BigEndian(a, b, c, d);
            x < U32 && OctetOf(x, 3) == a && OctetOf(x, 2) == b && OctetOf(x, 1) == c && OctetOf(x, 0) == d
    ensures a == 0 ==> BigEndian(a, b, c, d) < 0x100_0000
  {
    var x := BigEndian(a, b, c, d);
    assert x / 0x100 == (a * 0x100 + b) * 0x100 + c;
    assert x / 0x1_0000 == a * 0x100 + b;
    assert x / 0x100_0000 == a;
  }

  lemma LengthRoundTrip(length: nat, signed: bool)
    requires length < 0x100_0000
    ensures var a, b, c := OctetOf(length, 2), OctetOf(length, 1), OctetOf(length, 0);
            Join(0, a, b, c, signed) % 0x100_0000 == length
            <==> !signed || ((b >= 0x80 ==> a == 0xff) && (c >= 0x80 ==> a == b == 0xff))
  {
    hide Join;
    OctetsOfWord(length);
    JoinIsJoined(0, OctetOf(length, 2), OctetOf(length, 1), OctetOf(length, 0), signed);
  }

  /** A frame of 128 octets is announced, and read with a signed `char`, as one of nearly 16 MiB. */
  lemma SignedCharMisreadsLength()
    ensures HeaderFromOctets(FrameHeader(128, 0, 0, false, 1).Wire(), true).length == 0xff_ff80
  {
    hide Join;
    JoinIsJoined(0, 0, 0, 128, true);
  }

  // ---------------------------------------------------------------- settings

  const SETTINGS := 6
  const DEFAULT_SETTINGS: seq<nat> := [4096, 1, 0xffff_ffff, 65535, 16384, 0xffff_ffff]

  // Identifier and value of a six-octet entry.
  function EntryId(e: seq<byte>, signed: bool): nat
    requires |e| == 6
  {
    Join(0, 0, e[0], e[1], signed) % 0x1_0000
  }

  function EntryValue(e: seq<byte>, signed: bool): nat
    requires |e| == 6
  {
    Join(e[2], e[3], e[4], e[5], signed)
  }

  // What the last entry with this identifier says, or else the value there was.
  function LastValue(buf: seq<byte>, id: nat, otherwise: nat, signed: bool): nat
    requires |buf| % 6 == 0
  {
    if buf == [] then otherwise
    else
      assert |buf| >= 6 && (|buf| - 6) % 6 == 0;
      var e := buf[|buf| - 6..];
      if EntryId(e, signed) == id then EntryValue(e, signed)
      else LastValue(buf[..|buf| - 6], id, otherwise, signed)
  }

  // None for a size that is not a multiple of six.
  function SettingsOf(buf: seq<byte>, signed: bool): Option<seq<nat>> {
    if |buf| % 6 != 0 then None
    else Some(seq(SETTINGS, i requires 0 <= i < SETTINGS => LastValue(buf, i + 1, DEFAULT_SETTINGS[i], signed)))
  }

  method CreateFromBuffer(buf: seq<byte>, signed: bool) returns (r: Option<seq<nat>>)
    ensures r == SettingsOf(buf, signed)
  {
    hide Join;
    if |buf| % 6 != 0 {
      return None;
    }
    var values, rest := DEFAULT_SETTINGS, buf;
    ghost var done: seq<byte> := [];
    while rest != []
      invariant done + rest == buf && |done| % 6 == 0 && |rest| % 6 == 0 && |values| == SETTINGS
      invariant forall i :: 0 <= i < SETTINGS ==> values[i] == LastValue(done, i + 1, DEFAULT_SETTINGS[i], signed)
      decreases |rest|
    {
      var setting := rest[..6];
      rest := rest[6..];
      LastValueStep(done, setting, signed);
      done := done + setting;
      var id := EntryId(setting, signed);
      if id < 1 || id > SETTINGS {
        continue;
      }
      values := values[id - 1 := EntryValue(setting, signed)];
    }
    assert done == buf;
    SettingsAre(buf, signed, values);
    return Some(values);
  }

  /** No entries leave the initial values of section 6.5.2 of RFC 7540. */
  lemma NoEntries(signed: bool)
    ensures SettingsOf([], signed) == Some([4096, 1, 0xffff_ffff, 65535, 16384, 0xffff_ffff])
  {
    hide EntryId, EntryValue;
    SettingsAre([], signed, DEFAULT_SETTINGS);
  }

  /** One entry more sets the setting that it names, and no other; an identifier that is not known sets none. */
  lemma OneMoreEntry(buf: seq<byte>, hi: byte, lo: byte, a: byte, b: byte, c: byte, d: byte)
    requires |buf| % 6 == 0
    ensures var before, after := SettingsOf(buf, false).value, SettingsOf(buf + [hi, lo, a, b, c, d], false);
            after == Some(if hi == 0 && 1 <= lo <= 6 then before[lo - 1 := BigEndian(a, b, c, d)] else before)
  {
    hide Join, LastValue;
    var e := [hi, lo, a, b, c, d];
    JoinIsJoined(0, 0, hi, lo, false);
    JoinIsJoined(a, b, c, d, false);
    LastValueStep(buf, e, false);
    assert |buf + e| % 6 == 0;
    var before := SettingsOf(buf, false).value;
    SettingsAre(buf + e, false, if hi == 0 && 1 <= lo <= 6 then before[lo - 1 := BigEndian(a, b, c, d)] else before);
  }

  lemma SettingsAre(buf: seq<byte>, signed: bool, values: seq<nat>)
    requires |buf| % 6 == 0 && |values| == SETTINGS
    requires forall i :: 0 <= i < SETTINGS ==> values[i] == LastValue(buf, i + 1, DEFAULT_SETTINGS[i], signed)
    ensures SettingsOf(buf, signed) == Some(values)
  {
    hide LastValue;
    var v := SettingsOf(buf, signed).value;
    assert |v| == |values| && forall i :: 0 <= i < SETTINGS ==> v[i] == values[i];
    assert v == values;
  }

  lemma LastValueStep(done: seq<byte>, e: seq<byte>, signed: bool)
    requires |done| % 6 == 0 && |e| == 6
    ensures forall id, otherwise ::
              LastValue(done + e, id, otherwise, signed)
              == if EntryId(e, signed) == id then EntryValue(e, signed) else LastValue(done, id, otherwise, signed)
  {
    assert (done + e)[|done + e| - 6..] == e && (done + e)[..|done + e| - 6] == done;
  }

  function SettingWire(i: nat, value: nat): (octets: seq<byte>)
    ensures |octets| == 6
  {
    [OctetOf(i + 1, 1), OctetOf(i + 1, 0), OctetOf(value, 3), OctetOf(value, 2), OctetOf(value, 1), OctetOf(value, 0)]
  }

  // The entries of the first `n` settings.
  function SettingsWire(values: seq<nat>, n: nat): (octets: seq<byte>)
    requires n <= |values|
    ensures |octets| == 6 * n
  {
    if n == 0 then [] else SettingsWire(values, n - 1) + SettingWire(n - 1, values[n - 1])
  }

  method WriteSettings(values: seq<nat>) returns (payload: seq<byte>)
    requires |values| == SETTINGS
    ensures payload == SettingsWire(values, SETTINGS)
  {
    payload := [];
    for i := 0 to SETTINGS
      invariant payload == SettingsWire(values, i)
    {
      payload := payload + SettingWire(i, values[i]);
    }
  }

  lemma SettingIdReads(i: nat, value: nat, signed: bool)
    requires i < SETTINGS
    ensures EntryId(SettingWire(i, value), signed) == i + 1
  {
    hide Join;
    JoinIsJoined(0, 0, 0, i + 1, signed);
  }

  lemma SettingValueReads(i: nat, value: nat, signed: bool)
    requires value < U32
    ensures EntryValue(SettingWire(i, value), signed) == value <==> !signed || SignSafeWord(value)
  {
    hide Join, OctetOf, BigEndian, SignSafe;
    OctetsOfWord(value);
    JoinInvertsBigEndian(OctetOf(value, 3), OctetOf(value, 2), OctetOf(value, 1), OctetOf(value, 0), signed);
  }

  /** Settings survive writing and reading if and only if `char` is unsigned or every value's octets are safe. */
  lemma {:induction false} SettingsRoundTrip(values: seq<nat>, n: nat, i: nat, otherwise: nat, signed: bool)
    requires |values| == SETTINGS && i < n <= SETTINGS && forall v :: v in values ==> v < U32
    ensures LastValue(SettingsWire(values, n), i + 1, otherwise, signed) == values[i]
            <==> !signed || SignSafeWord(values[i])
  {
    hide EntryId, EntryValue, SignSafeWord, SettingWire;
    assert values[n - 1] in values;
    SettingIdReads(n - 1, values[n - 1], signed);
    SettingValueReads(n - 1, values[n - 1], signed);
    LastValueStep(SettingsWire(values, n - 1), SettingWire(n - 1, values[n - 1]), signed);
    if i < n - 1 {
      SettingsRoundTrip(values, n - 1, i, otherwise, signed);
    }
  }
}
