/** Lines, headers and first lines of HTTP/1 messages (sections 2.1 and 3 of RFC 7230), as octets. */
module Http1Text {
  import opened Wrappers
  import opened Octets

  const NL: byte := 10
  const CR: byte := 13
  const SP: byte := 32
  const TAB: byte := 9
  const COLON: byte := 58
  const CRLF: seq<byte> := [CR, NL]

  // ---------------------------------------------------------------- lines

  // How many octets up to and including the first newline; 0 if there is none.
  function LineEnd(s: seq<byte>): (n: nat)
    ensures n <= |s|
    ensures n == 0 <==> NL !in s
    ensures n > 0 ==> s[n - 1] == NL && NL !in s[..n - 1]
  {
    if s == [] then 0
    else if s[0] == NL then 1
    else
      var n := LineEnd(s[1..]);
      assert s == [s[0]] + s[1..];
      if n == 0 then 0
      else
        assert s[..n] == [s[0]] + s[1..][..n - 1];
        n + 1
  }

  // `memrchr`: the last newline.
  function LastNewline(s: seq<byte>): (r: Option<nat>)
    ensures r.Some? <==> NL in s
  {
    if s == [] then None
    else if s[|s| - 1] == NL then Some(|s| - 1)
    else
      assert s == s[..|s| - 1] + [s[|s| - 1]];
      LastNewline(s[..|s| - 1])
  }

  // `rawmemchr`: there must be a newline to find.
  method FirstNewline(s: seq<byte>) returns (i: nat)
    requires NL in s
    ensures i + 1 == LineEnd(s)
  {
    i := 0;
    while s[i] != NL
      invariant i < |s| && NL !in s[..i]
      decreases |s| - i
    {
      assert s == s[..i] + [s[i]] + s[i + 1..];
      assert s[..i + 1] == s[..i] + [s[i]];
      i := i + 1;
    }
    LineEndUnique(s, i + 1);
  }

  lemma {:induction false} LineEndUnique(s: seq<byte>, n: nat)
    requires 0 < n <= |s| && s[n - 1] == NL && NL !in s[..n - 1]
    ensures LineEnd(s) == n
  {
    if n > 1 {
      assert s[0] == s[..n - 1][0];
      assert s[1..][..n - 2] == s[..n - 1][1..];
      LineEndUnique(s[1..], n - 1);
    }
  }

  method FindEndOfLine(buf: seq<byte>) returns (end: Option<nat>)
    ensures end == if LineEnd(buf) == 0 then None else Some(LineEnd(buf))
  {
    if |buf| == 0 {
      return None;
    }
    var lastNewline := if buf[|buf| - 1] == NL then Some(|buf| - 1) else LastNewline(buf);
    if lastNewline.None? {
      return None;
    }
    var i := FirstNewline(buf);
    return Some(i + 1);
  }

  function RemoveTrailing(s: seq<byte>, c: byte): seq<byte> {
    if s != [] && s[|s| - 1] == c then s[..|s| - 1] else s
  }

  function TrimNewline(s: seq<byte>): seq<byte> {
    RemoveTrailing(RemoveTrailing(s, NL), CR)
  }

  // A line without its end, and what follows it.
  datatype Line = Line(text: seq<byte>, rest: seq<byte>)

  // The first line; None until its newline is there.
  function FirstLine(s: seq<byte>): (r: Option<Line>)
    ensures r.Some? ==> |r.value.rest| < |s|
    ensures r.None? <==> NL !in s
  {
    var n := LineEnd(s);
    if n == 0 then None else Some(Line(TrimNewline(s[..n]), s[n..]))
  }

  /** A line is what it was before more octets arrived. */
  lemma FirstLineStable(a: seq<byte>, b: seq<byte>)
    requires FirstLine(a).Some?
    ensures FirstLine(a + b) == Some(Line(FirstLine(a).value.text, FirstLine(a).value.rest + b))
  {
    var n := LineEnd(a);
    assert (a + b)[..n] == a[..n] && (a + b)[n..] == a[n..] + b;
    assert (a + b)[..n - 1] == a[..n - 1];
    LineEndUnique(a + b, n);
  }

  // The octets of the first line, its end included.
  function LineOctets(s: seq<byte>): (a: seq<byte>)
    requires FirstLine(s).Some?
    ensures s == a + FirstLine(s).value.rest && a != []
    ensures FirstLine(a) == Some(Line(FirstLine(s).value.text, []))
  {
    var n := LineEnd(s);
    var a := s[..n];
    assert a[..n - 1] == s[..n - 1] && a[..n] == a && a[n..] == [];
    LineEndUnique(a, n);
    a
  }

  lemma SameFirstLine(s: seq<byte>, b: seq<byte>)
    requires FirstLine(s).Some?
    ensures FirstLine(LineOctets(s) + b) == Some(Line(FirstLine(s).value.text, b))
  {
    hide FirstLine, LineOctets;
    var a := LineOctets(s);
    FirstLineStable(a, b);
    assert FirstLine(a).value.rest + b == b;
  }

  /** A printed line is read back if and only if it holds no newline. */
  lemma LineRoundTrip(text: seq<byte>, tail: seq<byte>)
    ensures FirstLine(text + CRLF + tail) == Some(Line(text, tail)) <==> NL !in text
  {
    var s := text + CRLF + tail;
    if NL !in text {
      assert s[..|text| + 1] == text + [CR];
      assert s[|text| + 1] == NL;
      LineEndUnique(s, |text| + 2);
      assert s[..|text| + 2] == text + [CR] + [NL];
      assert s[|text| + 2..] == tail;
    } else {
      assert s == text + (CRLF + tail);
      FirstLineStable(text, CRLF + tail);
    }
  }

  /** A line may also end in a newline alone; then it is read back if it does not end in CR itself. */
  lemma LoneNewline(text: seq<byte>, tail: seq<byte>)
    ensures FirstLine(text + [10] + tail) == Some(Line(text, tail))
            <==> 10 !in text && (text == [] || text[|text| - 1] != 13)
  {
    var s, n := text + [10] + tail, |text| + 1;
    if NL !in text {
      assert s[..n - 1] == text && s[n - 1] == NL;
      LineEndUnique(s, n);
      assert s[..n] == text + [NL] && s[n..] == tail;
      assert RemoveTrailing(text + [NL], NL) == text;
    } else {
      assert s == text + ([10] + tail);
      FirstLineStable(text, [10] + tail);
    }
  }

  // ---------------------------------------------------------------- white space

  predicate IsLWS(c: byte) {
    c == SP || c == TAB
  }

  predicate AllLWS(s: seq<byte>) {
    forall c :: c in s ==> IsLWS(c)
  }

  // Without trailing white space.
  function Stripped(s: seq<byte>): (t: seq<byte>)
    ensures t <= s
    ensures t == [] || !IsLWS(t[|t| - 1])
    ensures forall i :: |t| <= i < |s| ==> IsLWS(s[i])
  {
    if s != [] && IsLWS(s[|s| - 1]) then Stripped(s[..|s| - 1]) else s
  }

  // Where the white space at `from` ends.
  function EndOfLWS(s: seq<byte>, from: nat): (n: nat)
    requires from <= |s|
    ensures from <= n <= |s| && (forall i :: from <= i < n ==> IsLWS(s[i])) && (n < |s| ==> !IsLWS(s[n]))
    decreases |s| - from
  {
    if from < |s| && IsLWS(s[from]) then EndOfLWS(s, from + 1) else from
  }

  // Without leading white space.
  function TrimmedLeading(s: seq<byte>): (t: seq<byte>)
    ensures |t| <= |s| && (t == [] || !IsLWS(t[0]))
  {
    s[EndOfLWS(s, 0)..]
  }

  // One octet too many goes with the white space, and a single octet always stays.
  function TrimmedTrailing(s: seq<byte>): seq<byte> {
    var t := Stripped(s);
    if t == s || |s| == 1 then s else if t == [] then [] else t[..|t| - 1]
  }

  method TrimTrailingLWS(s: seq<byte>) returns (t: seq<byte>)
    ensures t == TrimmedTrailing(s)
  {
    var initialSize := |s|;
    var i: nat := initialSize;
    while i != 0
      invariant i <= |s| && forall k :: i <= k < |s| ==> IsLWS(s[k])
      decreases i
    {
      i := i - 1;
      if IsLWS(s[i]) {
        continue;
      }
      break;
    }
    var newSize := i + 1;
    t := if newSize != initialSize then s[..i] else s;
  }

  method TrimLeadingLWS(s: seq<byte>) returns (t: seq<byte>)
    ensures t == TrimmedLeading(s)
  {
    var leading := 0;
    for i := 0 to |s|
      invariant leading == i && forall k :: 0 <= k < leading ==> IsLWS(s[k])
    {
      if !IsLWS(s[i]) {
        break;
      }
      leading := leading + 1;
    }
    TrimmedLeadingUnique(s, leading);
    return s[leading..];
  }

  function Trimmed(s: seq<byte>): seq<byte> {
    TrimmedLeading(TrimmedTrailing(s))
  }

  method TrimLWS(s: seq<byte>) returns (t: seq<byte>)
    ensures t == Trimmed(s)
  {
    t := TrimTrailingLWS(s);
    t := TrimLeadingLWS(t);
  }

  /** Both ends are trimmed as meant if and only if there is nothing to trim at the end, or nothing else at all. */
  lemma TrimsWhatItShould(s: seq<byte>)
    ensures Trimmed(s) == TrimmedLeading(Stripped(s)) <==> Stripped(s) == s || AllLWS(s)
  {
    var t := Stripped(s);
    if AllLWS(s) {
      StrippedAway(s);
      var u := TrimmedTrailing(s);
      TrimmedLeadingUnique(u, |u|);
    } else if t != s {
      assert t != [];
      TrimmedButLast(t);
    }
  }

  lemma {:induction false} StrippedAway(s: seq<byte>)
    requires AllLWS(s)
    ensures Stripped(s) == []
  {
    if s != [] { StrippedAway(s[..|s| - 1]); }
  }

  lemma TrimmedButLast(t: seq<byte>)
    requires t != [] && !IsLWS(t[|t| - 1])
    ensures |TrimmedLeading(t[..|t| - 1])| == |TrimmedLeading(t)| - 1
  {
    TrimmedLeadingUnique(t[..|t| - 1], |t| - |TrimmedLeading(t)|);
  }

  /** White space is spaces and tabs: a value is cut out of them whole, up to where the first thing behind it is one. */
  lemma SpacesAndTabs(before: seq<byte>, value: seq<byte>, after: seq<byte>)
    requires forall i :: 0 <= i < |before| ==> before[i] == 32 || before[i] == 9
    requires forall i :: 0 <= i < |after| ==> after[i] == 32 || after[i] == 9
    requires value != [] && value[0] !in {32, 9} && value[|value| - 1] !in {32, 9}
    ensures TrimmedLeading(Stripped(before + value + after)) == value
    ensures Trimmed(before + value + after) == if after == [] then value else value[..|value| - 1]
  {
    hide Stripped, TrimmedLeading, TrimmedTrailing;
    var t := before + value;
    assert t[|t| - 1] == value[|value| - 1];
    StripsAfter(t, after);
    CutsAfter(t, after);
    TrimsBefore(before, value);
    if after != [] {
      var cut := value[..|value| - 1];
      assert t[..|t| - 1] == before + cut;
      TrimsBefore(before, cut);
    }
  }

  lemma CutsAfter(t: seq<byte>, after: seq<byte>)
    requires t != [] && Stripped(t + after) == t
    ensures TrimmedTrailing(t + after) == if after == [] then t else t[..|t| - 1]
  {
    hide Stripped;
    if after == [] { assert t + after == t; }
  }

  lemma StripsAfter(t: seq<byte>, after: seq<byte>)
    requires t != [] && t[|t| - 1] !in {32, 9} && forall i :: 0 <= i < |after| ==> after[i] == 32 || after[i] == 9
    ensures Stripped(t + after) == t
  {
    StrippedUnique(t + after, |t|);
    assert (t + after)[..|t|] == t;
  }

  lemma TrimsBefore(before: seq<byte>, value: seq<byte>)
    requires forall i :: 0 <= i < |before| ==> before[i] == 32 || before[i] == 9
    requires value == [] || value[0] !in {32, 9}
    ensures TrimmedLeading(before + value) == value
  {
    TrimmedLeadingUnique(before + value, |before|);
    assert (before + value)[|before|..] == value;
  }

  // ---------------------------------------------------------------- header lines

  function ToLower(c: byte): byte {
    if 65 <= c <= 90 then c + 32 else c
  }

  function Lower(s: seq<byte>): (t: seq<byte>)
    ensures |t| == |s| && forall i :: 0 <= i < |s| ==> t[i] == ToLower(s[i])
  {
    if s == [] then [] else [ToLower(s[0])] + Lower(s[1..])
  }

  // The same letters, in any case.
  predicate SameButCase(a: seq<byte>, b: seq<byte>) {
    && |a| == |b|
    && forall i :: 0 <= i < |a| ==>
                     || a[i] == b[i]
                     || (65 <= a[i] <= 90 && b[i] == a[i] + 32)
                     || (65 <= b[i] <= 90 && a[i] == b[i] + 32)
  }

  /** Lowering leaves no upper-case letter, changes nothing else, and makes the same of what differs in case only. */
  lemma LowersLetters(a: seq<byte>, b: seq<byte>)
    ensures forall c :: c in Lower(a) ==> !(65 <= c <= 90)
    ensures SameButCase(a, Lower(a))
    ensures Lower(a) == Lower(b) <==> SameButCase(a, b)
  {
    if Lower(a) == Lower(b) {
      forall i | 0 <= i < |a|
        ensures a[i] == b[i] || (65 <= a[i] <= 90 && b[i] == a[i] + 32) || (65 <= b[i] <= 90 && a[i] == b[i] + 32)
      {
        assert Lower(a)[i] == Lower(b)[i];
      }
    } else if SameButCase(a, b) {
      assert forall i :: 0 <= i < |a| ==> Lower(a)[i] == Lower(b)[i];
    }
  }

  // The place of the first `c` at `from` or later; None if there is none.
  function Find(s: seq<byte>, c: byte, from: nat): (r: Option<nat>)
    requires from <= |s|
    ensures r.Some? ==> from <= r.value < |s| && s[r.value] == c && c !in s[from..r.value]
    ensures r.None? ==> c !in s[from..]
    decreases |s| - from
  {
    if from == |s| then None
    else if s[from] == c then Some(from)
    else
      var r := Find(s, c, from + 1);
      assert r.Some? ==> s[from..r.value] == [s[from]] + s[from + 1..r.value];
      assert s[from..] == [s[from]] + s[from + 1..];
      r
  }

  lemma {:induction false} FindNothing(s: seq<byte>, c: byte, from: nat)
    requires from <= |s| && c !in s
    ensures Find(s, c, from) == None
    decreases |s| - from
  {
    if from < |s| {
      assert s[from] in s;
      FindNothing(s, c, from + 1);
    }
  }

  lemma {:induction false} FindUnique(s: seq<byte>, c: byte, from: nat, i: nat)
    requires from <= i < |s| && s[i] == c && c !in s[from..i]
    ensures Find(s, c, from) == Some(i)
    decreases i - from
  {
    if from < i {
      assert s[from..i] == [s[from]] + s[from + 1..i];
      FindUnique(s, c, from + 1, i);
    }
  }

  datatype Field = Field(name: seq<byte>, value: seq<byte>)

  // The colon belongs to the value where no space follows it.
  function ParsedField(line: seq<byte>): Option<Field> {
    var colon := Find(line, COLON, 0);
    if colon.None? then None
    else
      var c := colon.value;
      var start := if c < |line| - 1 && line[c + 1] == SP then c + 1 else c;
      Some(Field(Lower(line[..c]), Trimmed(line[start..])))
  }

  function FieldLine(f: Field): seq<byte> {
    f.name + [COLON, SP] + f.value
  }

  predicate Bare(value: seq<byte>) {
    value == [] || (!IsLWS(value[0]) && !IsLWS(value[|value| - 1]))
  }

  lemma TrimmedIsBare(value: seq<byte>)
    ensures Trimmed([SP] + value) == value <==> Bare(value)
  {
    var s := [SP] + value;
    var t := TrimmedTrailing(s);
    if Bare(value) {
      assert t == s by { if value != [] { assert s[|s| - 1] == value[|value| - 1]; } }
      TrimmedLeadingUnique(s, 1);
      assert s[1..] == value;
    } else if IsLWS(value[|value| - 1]) {
      assert |Stripped(s)| < |s|;
    } else {
      assert Stripped(s) == s;
    }
  }

  lemma TrimmedLeadingUnique(s: seq<byte>, n: nat)
    requires n <= |s| && (forall i :: 0 <= i < n ==> IsLWS(s[i])) && (n == |s| || !IsLWS(s[n]))
    ensures TrimmedLeading(s) == s[n..]
  {
    EndOfLWSUnique(s, 0, n);
  }

  lemma {:induction false} EndOfLWSUnique(s: seq<byte>, from: nat, n: nat)
    requires from <= n <= |s| && (forall i :: from <= i < n ==> IsLWS(s[i])) && (n == |s| || !IsLWS(s[n]))
    ensures EndOfLWS(s, from) == n
    decreases n - from
  {
    if from < n { EndOfLWSUnique(s, from + 1, n); }
  }

  /** A printed header is read back if and only if its name is lower-case without colon and its value is bare. */
  lemma FieldRoundTrip(f: Field)
    ensures ParsedField(FieldLine(f)) == Some(f) <==> Lower(f.name) == f.name && COLON !in f.name && Bare(f.value)
  {
    hide Trimmed, Bare, Lower;
    if COLON !in f.name {
      FieldSplit(f.name, [SP] + f.value);
      assert FieldLine(f) == f.name + [COLON] + ([SP] + f.value);
      TrimmedIsBare(f.value);
    } else {
      FindWithin(f.name, COLON, [COLON, SP] + f.value);
      assert FieldLine(f) == f.name + ([COLON, SP] + f.value);
    }
  }

  lemma FieldSplit(name: seq<byte>, behind: seq<byte>)
    requires COLON !in name
    ensures var line := name + [COLON] + behind;
            Find(line, COLON, 0) == Some(|name|) && line[..|name|] == name && line[|name| + 1..] == behind
            && line[|name|..] == [COLON] + behind
  {
    var line := name + [COLON] + behind;
    assert line[0..|name|] == name;
    FindUnique(line, COLON, 0, |name|);
  }

  lemma FindWithin(name: seq<byte>, c: byte, behind: seq<byte>)
    requires c in name
    ensures Find(name + behind, c, 0).Some? && Find(name + behind, c, 0).value < |name|
  {
    var i := Find(name, c, 0).value;
    assert (name + behind)[0..i] == name[0..i];
    FindUnique(name + behind, c, 0, i);
  }

  // What is read behind a colon without a space: the colon, and the rest without what is trimmed.
  function WithColon(rest: seq<byte>): seq<byte> {
    var v := [COLON] + Stripped(rest);
    if Stripped(rest) == rest then v else v[..|v| - 1]
  }

  /** Without a space behind the colon, the colon is read as part of the value. */
  lemma ColonStaysInValue(name: seq<byte>, rest: seq<byte>)
    requires COLON !in name && (rest == [] || rest[0] != SP)
    ensures ParsedField(name + [COLON] + rest) == Some(Field(Lower(name), WithColon(rest)))
  {
    hide Lower, TrimmedLeading, Stripped;
    FieldSplit(name, rest);
    var v := [COLON] + rest;
    StrippedBehindColon(rest);
    TrimmedLeadingUnique(TrimmedTrailing(v), 0);
  }

  lemma StrippedBehindColon(rest: seq<byte>)
    ensures Stripped([COLON] + rest) == [COLON] + Stripped(rest)
    ensures TrimmedTrailing([COLON] + rest) == WithColon(rest)
    ensures WithColon(rest) == [] || WithColon(rest)[0] == COLON
  {
    StrippedUnique([COLON] + rest, 1 + |Stripped(rest)|);
    assert ([COLON] + rest)[..1 + |Stripped(rest)|] == [COLON] + Stripped(rest);
  }

  lemma {:induction false} StrippedUnique(s: seq<byte>, n: nat)
    requires n <= |s| && (forall i :: n <= i < |s| ==> IsLWS(s[i])) && (n == 0 || !IsLWS(s[n - 1]))
    ensures Stripped(s) == s[..n]
  {
    if n < |s| {
      StrippedUnique(s[..|s| - 1], n);
      assert s[..|s| - 1][..n] == s[..n];
    }
  }

  predicate AllColons(s: seq<byte>) {
    forall i :: 0 <= i < |s| ==> s[i] == COLON
  }

  // When the value of a header line is read as it should be.
  predicate ReadsWell(rest: seq<byte>) {
    if rest != [] && rest[0] == SP then Stripped(rest) == rest || AllLWS(rest)
    else Stripped(rest) != rest && AllColons(Stripped(rest))
  }

  lemma ColonsShift(rest: seq<byte>)
    ensures WithColon(rest) == TrimmedLeading(Stripped(rest)) <==> Stripped(rest) != rest && AllColons(Stripped(rest))
  {
    hide Stripped, TrimmedLeading;
    var t, u, w := Stripped(rest), TrimmedLeading(Stripped(rest)), WithColon(rest);
    if t == rest {
      assert |w| > |u|;
    } else if AllColons(t) {
      TrimmedLeadingUnique(t, 0);
    } else if w == u {
      LeadingOfSameLength(t);
      assert w == ([COLON] + t)[..|t|];
      ShiftedIsConstant(t);
    }
  }

  lemma LeadingOfSameLength(t: seq<byte>)
    ensures |TrimmedLeading(t)| == |t| ==> TrimmedLeading(t) == t
  {}

  lemma {:induction false} ShiftedIsConstant(t: seq<byte>)
    requires t == ([COLON] + t)[..|t|]
    ensures AllColons(t)
  {
    if t != [] {
      var s := t[..|t| - 1];
      assert s == ([COLON] + s)[..|s|] by {
        forall i | 0 <= i < |s| ensures s[i] == ([COLON] + s)[i] { assert t[i] == ([COLON] + t)[i]; }
      }
      ShiftedIsConstant(s);
      assert t[|t| - 1] == ([COLON] + t)[|t| - 1];
    }
  }

  /**
   * A header line is read as its lower-case name and the value without outer white space if and only if, with a space
   * behind the colon, there is no white space at the end or nothing else, and without one, there is white space at the
   * end and nothing but colons before it.
   */
  lemma HeaderLineReads(name: seq<byte>, rest: seq<byte>)
    requires COLON !in name
    ensures ParsedField(name + [COLON] + rest) == Some(Field(Lower(name), TrimmedLeading(Stripped(rest))))
            <==> ReadsWell(rest)
  {
    hide Lower, Trimmed, Stripped, TrimmedLeading, AllLWS, AllColons, WithColon;
    FieldSplit(name, rest);
    if rest != [] && rest[0] == SP {
      TrimsWhatItShould(rest);
    } else {
      ColonStaysInValue(name, rest);
      ColonsShift(rest);
    }
  }

  // ---------------------------------------------------------------- numbers

  function Digit(d: nat): byte
    requires d < 10
  {
    48 + d
  }

  predicate IsDigit(c: byte) {
    48 <= c <= 57
  }

  function DigitValue(c: byte): nat
    requires IsDigit(c)
  {
    c - 48
  }

  // `std::to_string`.
  function Decimal(n: nat): (s: seq<byte>)
    ensures s != [] && forall c :: c in s ==> IsDigit(c)
  {
    if n < 10 then [Digit(n)] else Decimal(n / 10) + [Digit(n % 10)]
  }

  // The number that the leading digits spell, and how many there are.
  function Digits(s: seq<byte>, sofar: nat): (nat, nat)
    decreases |s|
  {
    if s == [] || !IsDigit(s[0]) then (sofar, 0)
    else
      var (v, n) := Digits(s[1..], 10 * sofar + DigitValue(s[0]));
      (v, n + 1)
  }

  predicate IsSpace(c: byte) {
    c == SP || 9 <= c <= 13
  }

  // `std::stoul`: white space, a sign, digits, anything. A negative number wraps around. None for its exceptions.
  function Stoul(s: seq<byte>): Option<nat>
    decreases |s|
  {
    if s != [] && IsSpace(s[0]) then Stoul(s[1..])
    else
      var negative := s != [] && s[0] == 45;
      var (v, n) := Digits(if s != [] && s[0] in {43, 45} then s[1..] else s, 0);
      if n == 0 || v >= U64 then None else Some(if negative then (U64 - v) % U64 else v)
  }

  lemma {:induction false} DigitsOfDecimal(n: nat, rest: seq<byte>)
    requires rest == [] || !IsDigit(rest[0])
    ensures Digits(Decimal(n) + rest, 0) == (n, |Decimal(n)|)
  {
    DigitsPrepend(n, 0, rest);
  }

  // Reading goes on behind the digits with the number they spell.
  lemma {:induction false} DigitsPrepend(n: nat, k: nat, rest: seq<byte>)
    ensures var (v, m) := Digits(rest, n); Digits(Decimal(n) + rest, 0) == (v, |Decimal(n)| + m)
    decreases n
  {
    var s := Decimal(n) + rest;
    if n < 10 {
      assert s[1..] == rest;
    } else {
      var more := [Digit(n % 10)] + rest;
      assert s == Decimal(n / 10) + more;
      assert more[1..] == rest;
      DigitsPrepend(n / 10, 0, more);
    }
  }

  /** A printed length is read back. */
  lemma LengthReads(n: nat)
    requires n < U64
    ensures Stoul(Decimal(n)) == Some(n)
  {
    DigitsOfDecimal(n, []);
    assert Decimal(n) + [] == Decimal(n);
    assert IsDigit(Decimal(n)[0]);
  }

  /** White space, a sign, a number and what is no digit: the number, or what it wraps to, if it has 64 bits. */
  lemma StoulReads(space: seq<byte>, sign: seq<byte>, n: nat, rest: seq<byte>)
    requires forall c :: c in space ==> c in {32, 9, 10, 11, 12, 13}
    requires sign in {[], [43], [45]} && (rest == [] || !(48 <= rest[0] <= 57))
    ensures Stoul(space + sign + Decimal(n) + rest)
            == if n >= 0x1_0000_0000_0000_0000 then None
               else if sign == [45] && n > 0 then Some(0x1_0000_0000_0000_0000 - n)
               else Some(n)
  {
    hide Decimal, Stoul;
    var number := Decimal(n) + rest;
    SkipSpace(space, sign + number);
    assert space + sign + Decimal(n) + rest == space + (sign + number);
    DigitsOfDecimal(n, rest);
    assert IsDigit(Decimal(n)[0]) && number[0] == Decimal(n)[0];
    SignedNumber(sign, number, n, |Decimal(n)|);
  }

  lemma SignedNumber(sign: seq<byte>, number: seq<byte>, n: nat, len: nat)
    requires sign in {[], [43], [45]} && number != [] && IsDigit(number[0]) && Digits(number, 0) == (n, len) && len > 0
    ensures Stoul(sign + number)
            == if n >= U64 then None else if sign == [45] && n > 0 then Some(U64 - n) else Some(n)
  {
    hide Digits;
    var s := sign + number;
    if sign == [] { assert s == number; } else { assert s[1..] == number && s[0] == sign[0]; }
  }

  lemma {:induction false} SkipSpace(space: seq<byte>, body: seq<byte>)
    requires forall c :: c in space ==> c in {32, 9, 10, 11, 12, 13}
    ensures Stoul(space + body) == Stoul(body)
  {
    if space == [] {
      assert space + body == body;
    } else {
      assert space[0] in space && (space + body)[1..] == space[1..] + body;
      assert forall c :: c in space[1..] ==> c in space;
      SkipSpace(space[1..], body);
    }
  }

  /** Without a digit there is no number. */
  lemma StoulNeedsDigits(s: seq<byte>)
    requires forall c :: c in s ==> !(48 <= c <= 57)
    ensures Stoul(s) == None
    decreases |s|
  {
    if s != [] {
      assert s[0] in s;
      if |s| > 1 { assert s[1] in s; }
      assert forall c :: c in s[1..] ==> c in s;
      StoulNeedsDigits(s[1..]);
    }
  }

  // ---------------------------------------------------------------- first lines

  datatype RequestLine = RequestLine(method_: seq<byte>, path: seq<byte>, version: seq<byte>)

  datatype StatusLine = StatusLine(code: nat, reason: seq<byte>, version: seq<byte>)

  const HTTP11: seq<byte> := Ascii("HTTP/1.1")
  const SMILE: seq<byte> := [0xf0, 0x9f, 0x98, 0x8e]

  // The two leading words of a line, and the rest of it.
  function Words(line: seq<byte>): (r: Option<(seq<byte>, seq<byte>, seq<byte>)>)
    ensures r.Some? ==> var (a, b, c) := r.value;
                        line == a + [SP] + b + [SP] + c && SP !in a && SP !in b
  {
    var sp1 := Find(line, SP, 0);
    if sp1.None? then None
    else
      var sp2 := Find(line, SP, sp1.value + 1);
      if sp2.None? then None
      else Some((line[..sp1.value], line[sp1.value + 1..sp2.value], line[sp2.value + 1..]))
  }

  lemma WordsRoundTrip(a: seq<byte>, b: seq<byte>, c: seq<byte>)
    ensures Words(a + [SP] + b + [SP] + c) == Some((a, b, c)) <==> SP !in a && SP !in b
  {
    if SP !in a && SP !in b {
      var line := a + [SP] + b + [SP] + c;
      assert line[0..|a|] == a;
      FindUnique(line, SP, 0, |a|);
      assert line[|a| + 1..|a| + 1 + |b|] == b;
      FindUnique(line, SP, |a| + 1, |a| + 1 + |b|);
      assert line[|a| + |b| + 2..] == c;
    }
  }

  function PrintRequestLine(method_: seq<byte>, path: seq<byte>): seq<byte> {
    method_ + [SP] + path + [SP] + HTTP11
  }

  function ParseRequestLine(line: seq<byte>): Option<RequestLine> {
    var words := Words(line);
    if words.None? then None else Some(RequestLine(words.value.0, words.value.1, words.value.2))
  }

  /** A request line is read back if and only if neither the method nor the path holds a space. */
  lemma RequestLineRoundTrip(method_: seq<byte>, path: seq<byte>)
    ensures ParseRequestLine(PrintRequestLine(method_, path)) == Some(RequestLine(method_, path, HTTP11))
            <==> SP !in method_ && SP !in path
  {
    WordsRoundTrip(method_, path, HTTP11);
  }

  /** Any line with two spaces is a request line: its parts are told apart by the first two. */
  lemma RequestLineReads(a: seq<byte>, b: seq<byte>, c: seq<byte>)
    ensures ParseRequestLine(a + [32] + b + [32] + c) == Some(RequestLine(a, b, c)) <==> 32 !in a && 32 !in b
    ensures ParseRequestLine(a) == None <==> forall i, j :: 0 <= i < j < |a| ==> !(a[i] == 32 && a[j] == 32)
  {
    WordsRoundTrip(a, b, c);
    TwoSpaces(a);
  }

  lemma TwoSpaces(s: seq<byte>)
    ensures Words(s) == None <==> forall i, j :: 0 <= i < j < |s| ==> !(s[i] == SP && s[j] == SP)
  {
    var sp1 := Find(s, SP, 0);
    if sp1.None? {
      forall i, j | 0 <= i < j < |s| ensures !(s[i] == SP && s[j] == SP) { assert s[0..][i] == s[i]; }
    } else {
      var k := sp1.value;
      var sp2 := Find(s, SP, k + 1);
      if sp2.None? {
        forall i, j | 0 <= i < j < |s| ensures !(s[i] == SP && s[j] == SP) {
          if i < k { assert s[0..k][i] == s[i]; }
          if j > k { assert s[k + 1..][j - k - 1] == s[j]; }
        }
      }
    }
  }

  /** Whatever request line is read, its parts print as that line. */
  lemma RequestLineReprints(line: seq<byte>)
    ensures var r := ParseRequestLine(line);
            r.Some? ==> line == r.value.method_ + [SP] + r.value.path + [SP] + r.value.version
  {}

  function CodeDigits(code: nat): (s: seq<byte>)
    requires code < 1000
    ensures |s| == 3
  {
    [Digit(code / 100), Digit(code / 10 % 10), Digit(code % 10)]
  }

  // `codeToNumber`.
  function CodeValue(code: seq<byte>): nat
    requires |code| == 3 && IsDigit(code[0]) && IsDigit(code[1]) && IsDigit(code[2])
  {
    DigitValue(code[0]) * 100 + DigitValue(code[1]) * 10 + DigitValue(code[2])
  }

  // None for the exception that the table of status strings throws.
  function PrintStatusLine(code: nat): Option<seq<byte>> {
    if 100 <= code <= 599 then Some(HTTP11 + [SP] + CodeDigits(code) + [SP] + SMILE) else None
  }

  function ParseStatusLine(line: seq<byte>): Option<StatusLine> {
    var words := Words(line);
    if words.None? then None
    else
      var code := words.value.1;
      if |code| != 3 || !IsDigit(code[0]) || !IsDigit(code[1]) || !IsDigit(code[2]) then None
      else Some(StatusLine(CodeValue(code), words.value.2, words.value.0))
  }

  lemma CodeDigitsRead(code: nat)
    requires code < 1000
    ensures var s := CodeDigits(code);
            IsDigit(s[0]) && IsDigit(s[1]) && IsDigit(s[2]) && SP !in s && CodeValue(s) == code
  {
    var tens := code / 10;
    assert code == 10 * tens + code % 10 && tens == 10 * (tens / 10) + tens % 10 && tens / 10 == code / 100;
    assert tens / 10 < 10;
  }

  lemma DigitsMakeCode(s: seq<byte>)
    requires |s| == 3 && IsDigit(s[0]) && IsDigit(s[1]) && IsDigit(s[2])
    ensures CodeValue(s) < 1000 && CodeDigits(CodeValue(s)) == s
  {
    var a, b, c := DigitValue(s[0]), DigitValue(s[1]), DigitValue(s[2]);
    var code := a * 100 + b * 10 + c;
    assert code / 10 == a * 10 + b;
    assert code / 100 == a;
  }

  /** A status line with any three digits is read as they are, if its version has no space. */
  lemma StatusLineReads(version: seq<byte>, code: nat, reason: seq<byte>)
    requires code < 1000
    ensures ParseStatusLine(version + [32] + CodeDigits(code) + [32] + reason)
               == Some(StatusLine(code, reason, version))
            <==> 32 !in version
  {
    hide Words, CodeDigits;
    CodeDigitsRead(code);
    WordsRoundTrip(version, CodeDigits(code), reason);
  }

  /** There are status lines for the codes from 100 to 599, and every one of them is read back. */
  lemma StatusLineRoundTrip(code: nat)
    ensures PrintStatusLine(code).Some? <==> 100 <= code <= 599
    ensures 100 <= code <= 599 ==>
              && PrintStatusLine(code).value == Ascii("HTTP/1.1 ") + CodeDigits(code) + [32, 0xf0, 0x9f, 0x98, 0x8e]
              && ParseStatusLine(PrintStatusLine(code).value) == Some(StatusLine(code, SMILE, Ascii("HTTP/1.1")))
  {
    if !(100 <= code <= 599) {
      return;
    }
    hide Words, CodeDigits;
    CodeDigitsRead(code);
    assert HTTP11 == [72, 84, 84, 80, 47, 49, 46, 49];
    assert Ascii("HTTP/1.1 ") == HTTP11 + [SP];
    assert [SP] + SMILE == [32, 0xf0, 0x9f, 0x98, 0x8e];
    WordsRoundTrip(HTTP11, CodeDigits(code), SMILE);
  }

  /** Whatever status line is read, its parts print as that line. */
  lemma StatusLineReprints(line: seq<byte>)
    ensures var r := ParseStatusLine(line);
            r.Some? ==> r.value.code < 1000
                        && line == r.value.version + [SP] + CodeDigits(r.value.code) + [SP] + r.value.reason
  {
    var r := ParseStatusLine(line);
    if r.Some? {
      hide Words, CodeDigits;
      DigitsMakeCode(Words(line).value.1);
    }
  }
}
