/** The encoded forms that parsed headers keep always belong to them. */
module HeaderForms {
  import opened Wrappers
  import opened Octets
  import opened Number
  import opened HuffmanStream
  import opened HpackString
  import opened HeaderTable
  import opened HeaderDecoder

  // No form is kept, or one that is read as the string, whole.
  ghost predicate FormFits(form: seq<byte>, s: seq<byte>) {
    form == [] || ReadString(form) == Ok(StringRead(s, form, []))
  }

  ghost predicate Fits(h: Header) {
    FormFits(h.nameEncoded, h.name) && FormFits(h.valueEncoded, h.value)
  }

  ghost predicate AllFit(hs: seq<Header>) {
    forall i :: 0 <= i < |hs| ==> Fits(hs[i])
  }

  lemma {:induction false} TailInFront(s: seq<byte>, room: nat, k: nat)
    requires room > 0 && ReadTail(s, room).Value? && ReadTail(s, room).used <= k <= |s|
    ensures ReadTail(s[..k], room) == ReadTail(s, room)
  {
    if s[0] >= 0x80 {
      TailInFront(s[1..], room - 1, k - 1);
      assert s[..k][1..] == s[1..][..k - 1];
    }
  }

  /** A number is read from the octets that it takes alone. */
  lemma NumberInFront(buf: seq<byte>, bits: nat, k: nat)
    requires Read(buf, bits).Value? && Read(buf, bits).used <= k <= |buf|
    ensures Read(buf[..k], bits) == Read(buf, bits) && k > 0
  {
    if Mask(buf[0], bits) == MaskFromBits(bits) {
      TailInFront(buf[1..], MAX_OCTETS, k - 1);
      assert buf[..k][1..] == buf[1..][..k - 1];
    }
  }

  /** A string literal comes apart into the octets that spell it and the others, and is read from the former alone. */
  lemma FormIsRead(buf: seq<byte>)
    requires ReadString(buf).Ok?
    ensures var v := ReadString(buf).value; v.encoded + v.rest == buf && FormFits(v.encoded, v.value)
  {
    hide Read, Decoded, OctetBits;
    ReadUses(buf, 7);
    var used := Read(buf, 7).used;
    var n := Read(buf, 7).n % U64;
    var form := buf[..used + n];
    NumberInFront(buf, 7, used + n);
    assert form[used..used + n] == buf[used..used + n] && form[..used + n] == form && form[used + n..] == [];
  }

  lemma LookupFits(t: Table, i: nat)
    requires AllFit(t.entries) && Lookup(t, i).Some?
    ensures Fits(Lookup(t, i).value)
  {
    hide ReadString, StaticRow, Ascii;
  }

  lemma LiteralFits(buf: seq<byte>, bits: nat, t: Table)
    requires AllFit(t.entries) && ReadLiteral(buf, bits, t).LiteralHeader?
    ensures Fits(ReadLiteral(buf, bits, t).header)
  {
    hide Read, ReadString, Lookup, FormFits;
    ReadUses(buf, bits);
    var index, rest := Read(buf, bits).n % U64, buf[Read(buf, bits).used..];
    FormIsRead(rest);
    if index != 0 {
      LookupFits(t, index % U32);
    } else {
      FormIsRead(ReadString(rest).value.rest);
    }
  }

  lemma TableFits(t: Table, h: Header, n: nat)
    requires AllFit(t.entries) && Fits(h)
    ensures AllFit(Inserted(t, h).entries) && AllFit(ResizedHere(t, n).entries)
  {
    hide Fits;
    EvictedIsLongestPrefix(t.entries, n);
    if h.HpackSize() <= t.limit { EvictedIsLongestPrefix(t.entries, t.limit - h.HpackSize()); }
  }

  lemma FieldFits(buf: seq<byte>, t: Table, assertions: bool)
    requires buf != [] && AllFit(t.entries) && ReadField(buf, t, assertions).Field?
    ensures var f := ReadField(buf, t, assertions);
            AllFit(f.table.entries) && (f.header.Some? ==> Fits(f.header.value))
  {
    hide Read, ReadLiteral, Lookup, Inserted, ResizedHere, AllFit, FormFits;
    if buf[0] >= 0x80 {
      LookupFits(t, Read(buf, 7).n % U64 % U32);
    } else if buf[0] >= 0x40 {
      LiteralFits(buf, 6, t);
      TableFits(t, ReadLiteral(buf, 6, t).header, 0);
    } else if buf[0] >= 0x20 {
      NothingFits();
      TableFits(t, Header([], [], [], [], false), Read(buf, 5).n % U64 % U32);
    } else {
      LiteralFits(buf, 4, t);
    }
  }

  lemma NothingFits()
    ensures Fits(Header([], [], [], [], false))
  {}

  /** Whatever octets are parsed: all headers, and all entries of the table, keep forms that are theirs. */
  lemma {:induction false} BlockFits(buf: seq<byte>, t: Table, assertions: bool)
    requires AllFit(t.entries) && ReadBlock(buf, t, assertions).Headers?
    ensures var r := ReadBlock(buf, t, assertions); AllFit(r.headers) && AllFit(r.table.entries)
    decreases |buf|
  {
    hide ReadField, Fits;
    if buf != [] {
      FieldFits(buf, t, assertions);
      ReadFieldAdvances(buf, t, assertions);
      var f := ReadField(buf, t, assertions);
      BlockFits(f.rest, f.table, assertions);
    }
  }
}
