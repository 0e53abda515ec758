/** The HPACK static and dynamic tables: sections 2.3 and 4 of RFC 7541. */
module HeaderTable {
  import opened Wrappers
  import opened Octets

  datatype Header = Header(name: seq<byte>, value: seq<byte>, nameEncoded: seq<byte>, valueEncoded: seq<byte>,
                           neverIndexed: bool)
  {
    function HpackSize(): nat {
      32 + |name| + |value|
    }
  }

  // The static table of RFC 7541, Appendix A: name and value.
  function StaticRow(index: nat): (string, string) {
    if index < 11 then
      match index
      case 1 => (":authority", "") case 2 => (":method", "GET") case 3 => (":method", "POST") case 4 => (":path", "/")
      case 5 => (":path", "/index.html") case 6 => (":scheme", "http") case 7 => (":scheme", "https")
      case 8 => (":status", "200") case 9 => (":status", "204") case 10 => (":status", "206") case _ => ("", "")
    else if index < 21 then
      match index
      case 11 => (":status", "304") case 12 => (":status", "400") case 13 => (":status", "404")
      case 14 => (":status", "500") case 15 => ("accept-charset", "") case 16 => ("accept-encoding", "gzip, deflate")
      case 17 => ("accept-language", "") case 18 => ("accept-ranges", "") case 19 => ("accept", "")
      case 20 => ("access-control-allow-origin", "") case _ => ("", "")
    else if index < 31 then
      match index
      case 21 => ("age", "") case 22 => ("allow", "") case 23 => ("authorization", "")
      case 24 => ("cache-control", "") case 25 => ("content-disposition", "") case 26 => ("content-encoding", "")
      case 27 => ("content-language", "") case 28 => ("content-length", "") case 29 => ("content-location", "")
      case 30 => ("content-range", "") case _ => ("", "")
    else if index < 41 then
      match index
      case 31 => ("content-type", "") case 32 => ("cookie", "") case 33 => ("date", "") case 34 => ("etag", "")
      case 35 => ("expect", "") case 36 => ("expires", "") case 37 => ("from", "") case 38 => ("host", "")
      case 39 => ("if-match", "") case 40 => ("if-modified-since", "") case _ => ("", "")
    else if index < 51 then
      match index
      case 41 => ("if-none-match", "") case 42 => ("if-range", "") case 43 => ("if-unmodified-since", "")
      case 44 => ("last-modified", "") case 45 => ("link", "") case 46 => ("location", "")
      case 47 => ("max-forwards", "") case 48 => ("proxy-authenticate", "") case 49 => ("proxy-authorization", "")
      case 50 => ("range", "") case _ => ("", "")
    else
      match index
      case 51 => ("referer", "") case 52 => ("refresh", "") case 53 => ("retry-after", "") case 54 => ("server", "")
      case 55 => ("set-cookie", "") case 56 => ("strict-transport-security", "") case 57 => ("transfer-encoding", "")
      case 58 => ("user-agent", "") case 59 => ("vary", "") case 60 => ("via", "") case 61 => ("www-authenticate", "")
      case _ => ("", "")
  }

  const START := 62

  function StaticGet(index: nat): Option<Header> {
    if index == 0 || index >= START then None
    else
      var (name, value) := StaticRow(index);
      Some(Header(Ascii(name), Ascii(value), [], [], false))
  }

  // ---------------------------------------------------------------- contents and eviction

  // The entries, newest first, and the limit that the code keeps.
  datatype Table = Table(entries: seq<Header>, limit: nat)

  function TableSize(entries: seq<Header>): nat {
    if entries == [] then 0 else TableSize(entries[..|entries| - 1]) + entries[|entries| - 1].HpackSize()
  }

  // What is left when the oldest entries go until the rest fits.
  function Evicted(entries: seq<Header>, room: nat): seq<Header> {
    if TableSize(entries) <= room then entries else Evicted(entries[..|entries| - 1], room)
  }

  /** Eviction keeps the longest prefix that fits. */
  lemma {:induction false} EvictedIsLongestPrefix(entries: seq<Header>, room: nat)
    ensures var kept := Evicted(entries, room);
            && kept <= entries && TableSize(kept) <= room
            && forall n :: |kept| < n <= |entries| ==> TableSize(entries[..n]) > room
  {
    if TableSize(entries) <= room {
    } else {
      var fewer := entries[..|entries| - 1];
      EvictedIsLongestPrefix(fewer, room);
      forall n | |Evicted(fewer, room)| < n <= |entries| ensures TableSize(entries[..n]) > room {
        if n <= |fewer| {
          assert fewer[..n] == entries[..n];
        } else {
          assert entries[..n] == entries;
        }
      }
    }
  }

  lemma {:induction false} TableSizeGrows(entries: seq<Header>, n: nat)
    requires n <= |entries|
    ensures TableSize(entries[..n]) <= TableSize(entries)
  {
    if n == |entries| {
      assert entries[..n] == entries;
    } else {
      TableSizeGrows(entries[..|entries| - 1], n);
      assert entries[..|entries| - 1][..n] == entries[..n];
    }
  }

  lemma {:induction false} TableSizeCons(h: Header, entries: seq<Header>)
    ensures TableSize([h] + entries) == h.HpackSize() + TableSize(entries)
  {
    if entries == [] {
      assert [h] + entries == [h] && [h][..0] == [];
    } else {
      TableSizeCons(h, entries[..|entries| - 1]);
      assert ([h] + entries)[..|[h] + entries| - 1] == [h] + entries[..|entries| - 1];
    }
  }

  // Section 4.4: an entry larger than the table empties it.
  function Inserted(t: Table, h: Header): (after: Table)
    ensures after.limit == t.limit
  {
    if h.HpackSize() > t.limit then t.(entries := [])
    else t.(entries := [h] + Evicted(t.entries, t.limit - h.HpackSize()))
  }

  // Section 4.3: what a size update should do.
  function Resized(t: Table, n: nat): Table {
    Table(Evicted(t.entries, n), n)
  }

  // What it does here: a smaller limit evicts but is not kept.
  function ResizedHere(t: Table, n: nat): Table {
    if n >= t.limit then t.(limit := n) else t.(entries := Evicted(t.entries, n))
  }

  lemma InsertedKeepsLimit(t: Table, h: Header)
    ensures TableSize(Inserted(t, h).entries) <= t.limit
  {
    if h.HpackSize() <= t.limit {
      EvictedIsLongestPrefix(t.entries, t.limit - h.HpackSize());
      TableSizeCons(h, Evicted(t.entries, t.limit - h.HpackSize()));
    }
  }

  // ---------------------------------------------------------------- runs of inserts and size updates

  datatype Op = Insert(header: Header) | Resize(n: nat)

  function Step(t: Table, op: Op): Table {
    match op
    case Insert(h) => Inserted(t, h)
    case Resize(n) => ResizedHere(t, n)
  }

  function StandardStep(t: Table, op: Op): Table {
    match op
    case Insert(h) => Inserted(t, h)
    case Resize(n) => Resized(t, n)
  }

  function Run(t: Table, ops: seq<Op>): Table {
    if ops == [] then t else Step(Run(t, ops[..|ops| - 1]), ops[|ops| - 1])
  }

  function StandardRun(t: Table, ops: seq<Op>): Table {
    if ops == [] then t else StandardStep(StandardRun(t, ops[..|ops| - 1]), ops[|ops| - 1])
  }

  // The largest limit ever asked for.
  function LargestLimit(limit: nat, ops: seq<Op>): nat {
    if ops == [] then limit
    else
      var before, op := LargestLimit(limit, ops[..|ops| - 1]), ops[|ops| - 1];
      if op.Resize? && op.n > before then op.n else before
  }

  /** The table never outgrows the largest limit asked for, which is the one the code keeps. */
  lemma {:induction false} RunKeepsLimit(t: Table, ops: seq<Op>)
    requires TableSize(t.entries) <= t.limit
    ensures var after := Run(t, ops);
            TableSize(after.entries) <= after.limit == LargestLimit(t.limit, ops)
  {
    if ops != [] {
      var before, op := Run(t, ops[..|ops| - 1]), ops[|ops| - 1];
      RunKeepsLimit(t, ops[..|ops| - 1]);
      match op
      case Insert(h) => InsertedKeepsLimit(before, h);
      case Resize(n) => EvictedIsLongestPrefix(before.entries, n);
    }
  }

  // No size update asks for less than an earlier limit.
  predicate NeverShrinks(limit: nat, ops: seq<Op>) {
    ops == [] ||
    (NeverShrinks(limit, ops[..|ops| - 1]) &&
     (ops[|ops| - 1].Resize? ==> ops[|ops| - 1].n >= LargestLimit(limit, ops[..|ops| - 1])))
  }

  lemma GrowingAgrees(t: Table, n: nat)
    requires TableSize(t.entries) <= t.limit
    ensures ResizedHere(t, n) == Resized(t, n) <==> n >= t.limit
  {}

  /** The table is the standard's after every step if and only if no size update shrinks the limit. */
  lemma {:induction false} AgreesWithStandard(t: Table, ops: seq<Op>)
    requires TableSize(t.entries) <= t.limit
    ensures (forall k :: 0 <= k <= |ops| ==> Run(t, ops[..k]) == StandardRun(t, ops[..k]))
            <==> NeverShrinks(t.limit, ops)
  {
    hide Inserted, Resized, ResizedHere, TableSize;
    if ops == [] {
      assert forall k :: 0 <= k <= |ops| ==> ops[..k] == [];
    } else {
      var fewer, op := ops[..|ops| - 1], ops[|ops| - 1];
      var before := Run(t, fewer);
      AgreesWithStandard(t, fewer);
      RunKeepsLimit(t, fewer);
      assert forall k :: 0 <= k <= |fewer| ==> ops[..k] == fewer[..k];
      assert ops[..|ops|] == ops && fewer[..|fewer|] == fewer;
      if op.Resize? { GrowingAgrees(before, op.n); }
      if NeverShrinks(t.limit, ops) {
        forall k | 0 <= k <= |ops| ensures Run(t, ops[..k]) == StandardRun(t, ops[..k]) {
          if k <= |fewer| { assert Run(t, fewer[..k]) == StandardRun(t, fewer[..k]); }
        }
      } else if NeverShrinks(t.limit, fewer) {
        assert Run(t, fewer[..|fewer|]) == StandardRun(t, fewer[..|fewer|]);
        assert Run(t, ops[..|ops|]) != StandardRun(t, ops[..|ops|]);
      }
    }
  }

  function Inserts(hs: seq<Header>): seq<Op> {
    if hs == [] then [] else Inserts(hs[..|hs| - 1]) + [Insert(hs[|hs| - 1])]
  }

  // The same entries, and so the same indices, whatever is inserted next.
  predicate EntriesAgree(t: Table, ops: seq<Op>, hs: seq<Header>) {
    Run(t, ops + Inserts(hs)).entries == StandardRun(t, ops + Inserts(hs)).entries
  }

  lemma RunOneMore(t: Table, ops: seq<Op>, op: Op)
    ensures Run(t, ops + [op]) == Step(Run(t, ops), op)
    ensures StandardRun(t, ops + [op]) == StandardStep(StandardRun(t, ops), op)
  {
    assert (ops + [op])[..|ops + [op]| - 1] == ops;
  }

  lemma {:induction false} InsertsAgree(t: Table, ops: seq<Op>, hs: seq<Header>)
    requires TableSize(t.entries) <= t.limit && NeverShrinks(t.limit, ops)
    ensures Run(t, ops + Inserts(hs)) == StandardRun(t, ops + Inserts(hs))
  {
    hide Inserted, Run, StandardRun, TableSize, NeverShrinks;
    if hs == [] {
      AgreesWithStandard(t, ops);
      assert ops[..|ops|] == ops && ops + [] == ops;
    } else {
      var fewer, h := hs[..|hs| - 1], hs[|hs| - 1];
      InsertsAgree(t, ops, fewer);
      assert ops + Inserts(hs) == ops + Inserts(fewer) + [Insert(h)];
      RunOneMore(t, ops + Inserts(fewer), Insert(h));
    }
  }

  /** Behind the first shrinking update, an entry between both limits tells the tables apart. */
  lemma {:induction false} TellingInsert(t: Table, ops: seq<Op>) returns (k: nat, h: Header)
    requires 32 <= t.limit && TableSize(t.entries) <= t.limit && !NeverShrinks(t.limit, ops)
    ensures k <= |ops| && !EntriesAgree(t, ops[..k], [h])
  {
    hide Run, StandardRun, Evicted, TableSize;
    var fewer, op := ops[..|ops| - 1], ops[|ops| - 1];
    if !NeverShrinks(t.limit, fewer) {
      k, h := TellingInsert(t, fewer);
      assert ops[..k] == fewer[..k];
    } else {
      k := |ops|;
      var before := Run(t, fewer);
      RunKeepsLimit(t, fewer);
      LimitGrows(t.limit, fewer);
      InsertsAgree(t, fewer, []);
      assert fewer + Inserts([]) == fewer && fewer + [op] == ops == ops[..k];
      h := Header(seq(before.limit - 32, _ => 0), [], [], [], false);
      RunOneMore(t, fewer, op);
      RunOneMore(t, ops, Insert(h));
      assert Inserts([h]) == [Insert(h)] by { assert [h][..0] == [] && Inserts([]) == []; }
      assert h.HpackSize() == before.limit && op.n < before.limit;
    }
  }

  lemma {:induction false} LimitGrows(limit: nat, ops: seq<Op>)
    ensures limit <= LargestLimit(limit, ops)
  {
    if ops != [] { LimitGrows(limit, ops[..|ops| - 1]); }
  }

  /**
   * The entries are the standard's after every step, and stay so whatever is inserted next, if and only if no size
   * update shrinks the limit.
   */
  lemma EntriesAgreeWithStandard(t: Table, ops: seq<Op>)
    requires 32 <= t.limit && TableSize(t.entries) <= t.limit
    ensures (forall k, hs :: 0 <= k <= |ops| ==> EntriesAgree(t, ops[..k], hs)) <==> NeverShrinks(t.limit, ops)
  {
    hide NeverShrinks, EntriesAgree;
    if NeverShrinks(t.limit, ops) {
      forall k, hs | 0 <= k <= |ops| ensures EntriesAgree(t, ops[..k], hs) {
        NeverShrinksBefore(t.limit, ops, k);
        InsertsAgree(t, ops[..k], hs);
        EntriesAgreeWhere(t, ops[..k], hs);
      }
    } else {
      var k, h := TellingInsert(t, ops);
    }
  }

  lemma EntriesAgreeWhere(t: Table, ops: seq<Op>, hs: seq<Header>)
    requires Run(t, ops + Inserts(hs)) == StandardRun(t, ops + Inserts(hs))
    ensures EntriesAgree(t, ops, hs)
  {}

  lemma {:induction false} NeverShrinksBefore(limit: nat, ops: seq<Op>, k: nat)
    requires NeverShrinks(limit, ops) && k <= |ops|
    ensures NeverShrinks(limit, ops[..k])
  {
    if k == |ops| {
      assert ops[..k] == ops;
    } else {
      NeverShrinksBefore(limit, ops[..|ops| - 1], k);
      assert ops[..|ops| - 1][..k] == ops[..k];
    }
  }

  /** An entry that the smaller limit excludes gets into the table all the same. */
  lemma ShrunkLimitIsForgotten(t: Table, n: nat, h: Header)
    requires n < h.HpackSize() <= t.limit
    ensures h in Run(t, [Resize(n), Insert(h)]).entries && StandardRun(t, [Resize(n), Insert(h)]).entries == []
  {
    var ops := [Resize(n), Insert(h)];
    assert ops[..1] == [Resize(n)] && ops[..1][..0] == [];
    assert Run(t, ops[..1]) == ResizedHere(t, n) && StandardRun(t, ops[..1]) == Resized(t, n);
  }

  // ---------------------------------------------------------------- every step

  // The names and values of entries, one behind the other.
  function Spelled(entries: seq<Header>): seq<byte> {
    if entries == [] then []
    else Spelled(entries[..|entries| - 1]) + (entries[|entries| - 1].name + entries[|entries| - 1].value)
  }

  /** A table's size is 32 octets for each entry and all octets of the names and values: section 4.1. */
  lemma {:induction false} SizeCountsEverything(entries: seq<Header>)
    ensures TableSize(entries) == 32 * |entries| + |Spelled(entries)|
  {
    if entries != [] { SizeCountsEverything(entries[..|entries| - 1]); }
  }

  // `kept` are the newest of the entries, and as many as there is room for.
  predicate LongestFit(entries: seq<Header>, kept: seq<Header>, room: nat) {
    && kept <= entries
    && 32 * |kept| + |Spelled(kept)| <= room
    && forall n :: |kept| < n <= |entries| ==> 32 * n + |Spelled(entries[..n])| > room
  }

  lemma EvictedIsLongestFit(entries: seq<Header>, room: nat)
    ensures LongestFit(entries, Evicted(entries, room), room)
  {
    EvictedIsLongestPrefix(entries, room);
    SizeCountsEverything(Evicted(entries, room));
    forall n | |Evicted(entries, room)| < n <= |entries| ensures 32 * n + |Spelled(entries[..n])| > room {
      SizeCountsEverything(entries[..n]);
    }
  }

  // What section 4.4 says of an insert: the new entry comes first, and as many others as fit behind it.
  predicate InsertsAsItShould(before: Table, h: Header, after: Table) {
    var size := 32 + |h.name| + |h.value|;
    && after.limit == before.limit
    && if size > before.limit then after.entries == []
       else after.entries != [] && after.entries[0] == h
            && LongestFit(before.entries, after.entries[1..], before.limit - size)
  }

  // What section 4.3 says of an update: as many entries stay as fit.
  predicate ResizesAsItShould(before: Table, n: nat, after: Table) {
    after.limit == n && LongestFit(before.entries, after.entries, n)
  }

  // Here a smaller limit is not kept.
  predicate ResizesHere(before: Table, n: nat, after: Table) {
    && after.limit == (if n < before.limit then before.limit else n)
    && LongestFit(before.entries, after.entries, n)
  }

  lemma InsertedExactly(t: Table, h: Header)
    ensures InsertsAsItShould(t, h, Inserted(t, h))
  {
    hide LongestFit;
    if h.HpackSize() <= t.limit {
      var kept := Evicted(t.entries, t.limit - h.HpackSize());
      EvictedIsLongestFit(t.entries, t.limit - h.HpackSize());
      assert ([h] + kept)[1..] == kept;
    }
  }

  lemma ResizedExactly(t: Table, n: nat)
    requires TableSize(t.entries) <= t.limit
    ensures ResizesAsItShould(t, n, Resized(t, n)) && ResizesHere(t, n, ResizedHere(t, n))
  {
    hide LongestFit;
    EvictedIsLongestFit(t.entries, n);
  }

  /** Every step of every run does what the standard says, but for the limit that an update should leave. */
  lemma StepsAreExact(t: Table, ops: seq<Op>, op: Op)
    requires TableSize(t.entries) <= t.limit
    ensures match op
            case Insert(h) => InsertsAsItShould(Run(t, ops), h, Run(t, ops + [op]))
            case Resize(n) => ResizesHere(Run(t, ops), n, Run(t, ops + [op]))
  {
    hide InsertsAsItShould, ResizesHere, ResizesAsItShould, Run, Inserted, Resized, ResizedHere, TableSize;
    RunKeepsLimit(t, ops);
    RunOneMore(t, ops, op);
    match op
    case Insert(h) => InsertedExactly(Run(t, ops), h);
    case Resize(n) => ResizedExactly(Run(t, ops), n);
  }

  /** And the standard's steps are those of the standard. */
  lemma StandardStepsAreExact(t: Table, op: Op)
    requires TableSize(t.entries) <= t.limit
    ensures match op
            case Insert(h) => InsertsAsItShould(t, h, StandardStep(t, op))
            case Resize(n) => ResizesAsItShould(t, n, StandardStep(t, op))
  {
    hide InsertsAsItShould, ResizesHere, ResizesAsItShould, Inserted, Resized, ResizedHere, TableSize;
    match op
    case Insert(h) => InsertedExactly(t, h);
    case Resize(n) => ResizedExactly(t, n);
  }

  // ---------------------------------------------------------------- the table object

  class DynamicTable {
    // Whether assertions are compiled in.
    const assertions: bool
    var sizeOctets: nat
    var table: seq<Header>

    constructor (assertions: bool)
      ensures this.assertions == assertions && Contents() == Table([], 4096)
    {
      this.assertions := assertions;
      sizeOctets, table := 4096, [];
    }

    function Contents(): Table
      reads this
    {
      Table(table, sizeOctets)
    }

    method Get(index: nat) returns (r: Option<Header>)
      ensures r == if START <= index < START + |table| then Some(table[index - START]) else None
    {
      if index < START {
        return None;
      }
      var i := index - START;
      if i >= |table| {
        return None;
      }
      return Some(table[i]);
    }

    method HpackSize() returns (s: nat)
      ensures s == TableSize(table)
    {
      s := 0;
      for i := 0 to |table|
        invariant s == TableSize(table[..i])
      {
        assert table[..i + 1][..i] == table[..i];
        s := s + table[i].HpackSize();
      }
      assert table[..|table|] == table;
    }

    method Insert(header: Header)
      modifies this
      ensures Contents() == Inserted(old(Contents()), header)
    {
      var newSize := header.HpackSize();
      if newSize > sizeOctets {
        table := [];
        return;
      }
      ghost var kept := Evicted(table, sizeOctets - newSize);
      var size := HpackSize();
      while size + newSize > sizeOctets && table != []
        invariant size == TableSize(table) && sizeOctets == old(sizeOctets)
        invariant kept == Evicted(table, sizeOctets - newSize)
        decreases |table|
      {
        table := table[..|table| - 1];
        size := HpackSize();
      }
      table := [header] + table;
    }

    // Returns false when an assertion aborts the program.
    method Resize(newSize: nat) returns (completed: bool)
      modifies this
      ensures completed <==> !(assertions && newSize < old(sizeOctets) && TableSize(old(table)) > newSize)
      ensures completed ==> Contents() == ResizedHere(old(Contents()), newSize)
    {
      if newSize >= sizeOctets {
        sizeOctets := newSize;
        return true;
      }
      assert table[..|table|] == table;
      var nremove: nat := 0;
      var hsize := HpackSize();
      while table != [] && hsize > newSize
        invariant nremove <= |table| && hsize == TableSize(table[..|table| - nremove])
        invariant Evicted(table, newSize) == Evicted(table[..|table| - nremove], newSize)
        invariant assertions ==> nremove == 0
        decreases |table| - nremove
      {
        ghost var left := table[..|table| - nremove];
        nremove := nremove + 1;
        var thisEntrySize := table[|table| - nremove].HpackSize();
        // An entry is never larger than the table it is in: the test is the wrong way round.
        if assertions && !(thisEntrySize > hsize) {
          return false;
        }
        assert left[..|left| - 1] == table[..|table| - nremove];
        hsize := hsize - thisEntrySize;
      }
      table := table[..|table| - nremove];
      return true;
    }
  }
}
