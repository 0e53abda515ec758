/** The encoded forms that a header keeps of its name and value. */
module HeaderEncoding {
  import opened Octets
  import opened HpackString
  import opened HeaderTable

  // What is kept, or else an encoding of the name.
  function NameForm(h: Header, junk: byte): Encoded {
    if h.nameEncoded != [] then Encoding(h.nameEncoded) else EncodedHere(h.name, junk)
  }

  // The name's, too.
  function ValueForm(h: Header, junk: byte): Encoded {
    if h.valueEncoded != [] then Encoding(h.valueEncoded) else EncodedHere(h.name, junk)
  }

  // An encoding made is kept.
  method NameEncoded(h: Header, junk: byte) returns (r: Encoded, after: Header)
    requires |h.name| + 30 <= SSIZE_MAX
    ensures r == NameForm(h, junk)
    ensures after == if r.Encoding? then h.(nameEncoded := r.octets) else h
  {
    if h.nameEncoded != [] {
      return Encoding(h.nameEncoded), h;
    }
    r := HpackEncodeString(h.name, junk);
    after := if r.Encoding? then h.(nameEncoded := r.octets) else h;
  }

  method ValueEncoded(h: Header, junk: byte) returns (r: Encoded, after: Header)
    requires |h.name| + 30 <= SSIZE_MAX
    ensures r == ValueForm(h, junk)
    ensures after == if r.Encoding? then h.(valueEncoded := r.octets) else h
  {
    if h.valueEncoded != [] {
      return Encoding(h.valueEncoded), h;
    }
    r := HpackEncodeString(h.name, junk);
    after := if r.Encoding? then h.(valueEncoded := r.octets) else h;
  }

  /** A form made up for a name is read as the name; one that is kept stays. */
  lemma NameFormReads(h: Header, junk: byte, tail: seq<byte>)
    requires Encodable(h.name) && junk < 0x80
    ensures var r := NameForm(h, junk);
            && r.Encoding?
            && (h.nameEncoded != [] ==> r.octets == h.nameEncoded)
            && (h.nameEncoded == [] ==> ReadString(r.octets + tail) == Ok(StringRead(h.name, r.octets, tail)))
  {
    hide ReadString, EncodedHere, Chosen, RawForm;
    ShorterFormIsChosen(h.name, junk);
    StringRoundTrip(h.name, junk, tail);
  }

  /** One made up for a value is read as the value if and only if the name is the same; one that is kept stays. */
  lemma ValueFormReads(h: Header, junk: byte, tail: seq<byte>)
    requires Encodable(h.name) && junk < 0x80
    ensures var r := ValueForm(h, junk);
            && r.Encoding?
            && (h.valueEncoded != [] ==> r.octets == h.valueEncoded)
            && (h.valueEncoded == [] ==>
                  (ReadString(r.octets + tail) == Ok(StringRead(h.value, r.octets, tail)) <==> h.name == h.value))
  {
    hide ReadString, EncodedHere, Chosen, RawForm;
    ShorterFormIsChosen(h.name, junk);
    StringRoundTrip(h.name, junk, tail);
  }
}
