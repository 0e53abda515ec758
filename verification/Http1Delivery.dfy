/** Which reads bring a list of HTTP/1 messages across. */
module Http1Delivery {
  import opened Wrappers
  import opened Octets
  import opened Http1Text
  import opened Http1Reader
  import opened Http1Messages

  // ---------------------------------------------------------------- positions in the stream

  // The octets of messages, one behind the other.
  function Stream(ms: seq<Message>): seq<byte> {
    if ms == [] then [] else Stream(ms[..|ms| - 1]) + (Head(ms[|ms| - 1]) + ms[|ms| - 1].body)
  }

  function StartOf(ms: seq<Message>, i: nat): nat
    requires i <= |ms|
  {
    |Stream(ms[..i])|
  }

  function HeadEnd(ms: seq<Message>, i: nat): nat
    requires i < |ms|
  {
    StartOf(ms, i) + |Head(ms[i])|
  }

  // Where the first `j` reads end.
  function Cut(chunks: seq<seq<byte>>, j: nat): nat
    requires j <= |chunks|
  {
    |Concat(chunks[..j])|
  }

  // A message's head and body are where they should be.
  lemma {:induction false} MessageAt(ms: seq<Message>, i: nat)
    requires i < |ms|
    ensures StartOf(ms, i + 1) == HeadEnd(ms, i) + |ms[i].body| <= |Stream(ms)|
    ensures Stream(ms)[StartOf(ms, i)..HeadEnd(ms, i)] == Head(ms[i])
    ensures Stream(ms)[HeadEnd(ms, i)..StartOf(ms, i + 1)] == ms[i].body
  {
    hide Head, Stream;
    var k := |ms| - 1;
    var fewer, last := ms[..k], ms[k];
    LastMessage(ms);
    if i < k {
      MessageAt(fewer, i);
      assert fewer[..i] == ms[..i] && fewer[..i + 1] == ms[..i + 1];
      Inside(Stream(fewer), Head(last) + last.body, StartOf(ms, i), HeadEnd(ms, i));
      Inside(Stream(fewer), Head(last) + last.body, HeadEnd(ms, i), StartOf(ms, i + 1));
    } else {
      assert ms[..i + 1] == ms && ms[..i] == fewer;
      ThreeParts(Stream(fewer), Head(last), last.body);
    }
  }

  lemma LastMessage(ms: seq<Message>)
    requires ms != []
    ensures Stream(ms) == Stream(ms[..|ms| - 1]) + (Head(ms[|ms| - 1]) + ms[|ms| - 1].body)
  {}

  lemma ThreeParts(a: seq<byte>, b: seq<byte>, c: seq<byte>)
    ensures (a + (b + c))[|a|..|a| + |b|] == b && (a + (b + c))[|a| + |b|..|a| + |b| + |c|] == c
  {}

  lemma Inside(a: seq<byte>, b: seq<byte>, x: nat, y: nat)
    requires x <= y <= |a|
    ensures (a + b)[x..y] == a[x..y]
  {}

  // A read is the octets between two cuts.
  lemma {:induction false} ChunkAt(chunks: seq<seq<byte>>, j: nat)
    requires j < |chunks|
    ensures Cut(chunks, j + 1) == Cut(chunks, j) + |chunks[j]| <= |Concat(chunks)|
    ensures Concat(chunks)[Cut(chunks, j)..Cut(chunks, j + 1)] == chunks[j]
  {
    hide Concat;
    var k := |chunks| - 1;
    var fewer, last := chunks[..k], chunks[k];
    LastChunk(chunks);
    if j < k {
      ChunkAt(fewer, j);
      assert fewer[..j] == chunks[..j] && fewer[..j + 1] == chunks[..j + 1];
      Inside(Concat(fewer), last, Cut(chunks, j), Cut(chunks, j + 1));
    } else {
      assert chunks[..j + 1] == chunks && chunks[..j] == fewer;
      ThreeParts(Concat(fewer), last, []);
      assert last + [] == last;
    }
  }

  lemma LastChunk(chunks: seq<seq<byte>>)
    requires chunks != []
    ensures Concat(chunks) == Concat(chunks[..|chunks| - 1]) + chunks[|chunks| - 1]
  {}

  lemma {:induction false} CutsGrow(chunks: seq<seq<byte>>, j: nat, k: nat)
    requires NoneEmpty(chunks) && j <= k <= |chunks|
    ensures j < k ==> Cut(chunks, j) < Cut(chunks, k)
    decreases k - j
  {
    if j < k {
      ChunkAt(chunks, j);
      CutsGrow(chunks, j + 1, k);
    }
  }

  // ---------------------------------------------------------------- what the reader makes of a prefix

  // All messages can be read, and all but the last leave the connection open.
  predicate Welcome(hs: Handlers, ms: seq<Message>) {
    && (forall k :: 0 <= k < |ms| ==> WellFormed(hs, ms[k]))
    && (forall k :: 0 <= k < |ms| - 1 ==> !hs.throws(ms[..k], ms[k]) && !hs.AsksToClose(ms[k]))
  }

  // All messages handed over, in order, and nothing left behind.
  function Final(hs: Handlers, ms: seq<Message>): State {
    if ms == [] then START else Handle(hs, ms[..|ms| - 1], ms[|ms| - 1], [], false)
  }

  /** What becomes of the last message: its handler throws, or it is handed over, and the connection closes if asked. */
  lemma FinalExactly(hs: Handlers, ms: seq<Message>)
    requires ms != []
    ensures var n := |ms| - 1;
            Final(hs, ms) == if hs.throws(ms[..n], ms[n]) then Dead(ms[..n], HandlerThrew)
                             else Open(ms, Idle, [], hs.AsksToClose(ms[n]))
  {
    assert ms[..|ms| - 1] + [ms[|ms| - 1]] == ms;
  }

  function Bodiless(m: Message): Message {
    m.(body := [])
  }

  // The first message with a body from `a` on.
  function FirstBody(ms: seq<Message>, a: nat): (b: nat)
    requires a <= |ms|
    ensures a <= b <= |ms| && (b < |ms| ==> ms[b].body != []) && forall i :: a <= i < b ==> ms[i].body == []
    decreases |ms| - a
  {
    if a == |ms| || ms[a].body != [] then a else FirstBody(ms, a + 1)
  }

  // One message without a body, and on.
  lemma RunPastMessage(hs: Handlers, ms: seq<Message>, a: nat, z: nat)
    requires Welcome(hs, ms) && a < |ms| && ms[a].body == [] && StartOf(ms, a + 1) <= z <= |Stream(ms)|
    ensures StartOf(ms, a) <= StartOf(ms, a + 1)
    ensures var s := Stream(ms);
            if a < |ms| - 1 then
              && Run(hs, ms[..a], Idle, s[StartOf(ms, a)..z], false)
                 == Run(hs, ms[..a + 1], Idle, s[StartOf(ms, a + 1)..z], false)
              && (NothingBehind(hs, ms[..a + 1], Idle, s[StartOf(ms, a + 1)..z])
                  ==> NothingBehind(hs, ms[..a], Idle, s[StartOf(ms, a)..z]))
            else
              && Run(hs, ms[..a], Idle, s[StartOf(ms, a)..z], false) == Final(hs, ms)
              && NothingBehind(hs, ms[..a], Idle, s[StartOf(ms, a)..z])
  {
    hide WellFormed, Head, Stream, NothingBehind, Handlers.AsksToClose, OnLine, FirstLine;
    var s, m, from, to := Stream(ms), ms[a], StartOf(ms, a), StartOf(ms, a + 1);
    MessageAt(ms, a);
    if a == |ms| - 1 { assert ms[..a + 1] == ms; }
    HeadIsRead(hs, ms[..a], m, s[to..z]);
    assert s[from..z] == s[from..to] + s[to..z];
    assert ms[..a] + [m] == ms[..a + 1];
    FirstLineOfNothing();
  }

  lemma FirstLineOfNothing()
    ensures FirstLine([]).None?
  {}

  // Messages without bodies up to a head that wants one.
  lemma {:induction false} RunToBody(hs: Handlers, ms: seq<Message>, a: nat, b: nat, z: nat)
    requires Welcome(hs, ms) && a <= b < |ms| && ms[b].body != [] && forall i :: a <= i < b ==> ms[i].body == []
    requires HeadEnd(ms, b) <= z <= |Stream(ms)|
    ensures StartOf(ms, a) <= HeadEnd(ms, b)
    ensures Run(hs, ms[..a], Idle, Stream(ms)[StartOf(ms, a)..z], false)
            == Open(ms[..b], Body(Bodiless(ms[b]), |ms[b].body|), Stream(ms)[HeadEnd(ms, b)..z], false)
    ensures NothingBehind(hs, ms[..a], Idle, Stream(ms)[StartOf(ms, a)..HeadEnd(ms, b)])
    decreases b - a
  {
    hide WellFormed, Head, Stream, NothingBehind, Run, Handlers.AsksToClose;
    var s := Stream(ms);
    MessageAt(ms, b);
    if a == b {
      HeadIsRead(hs, ms[..a], ms[a], s[HeadEnd(ms, a)..z]);
      HeadIsRead(hs, ms[..a], ms[a], []);
      assert s[StartOf(ms, a)..z] == s[StartOf(ms, a)..HeadEnd(ms, a)] + s[HeadEnd(ms, a)..z];
      assert Head(ms[a]) + [] == Head(ms[a]);
    } else {
      RunToBody(hs, ms, a + 1, b, z);
      RunPastMessage(hs, ms, a, z);
      RunPastMessage(hs, ms, a, HeadEnd(ms, b));
    }
  }

  // Messages without bodies up to the end.
  lemma {:induction false} RunToEnd(hs: Handlers, ms: seq<Message>, a: nat)
    requires Welcome(hs, ms) && a <= |ms| && forall i :: a <= i < |ms| ==> ms[i].body == []
    requires a == |ms| ==> ms == []
    ensures StartOf(ms, a) <= |Stream(ms)|
    ensures Run(hs, ms[..a], Idle, Stream(ms)[StartOf(ms, a)..], false) == Final(hs, ms)
    ensures NothingBehind(hs, ms[..a], Idle, Stream(ms)[StartOf(ms, a)..])
    decreases |ms| - a
  {
    hide WellFormed, Head, Stream, Run, NothingBehind, Handlers.AsksToClose;
    var s := Stream(ms);
    if a == |ms| {
      NothingRuns(hs);
      assert ms[..a] == [];
    } else {
      MessageAt(ms, a);
      assert s[StartOf(ms, a)..] == s[StartOf(ms, a)..|s|] && s[StartOf(ms, a + 1)..] == s[StartOf(ms, a + 1)..|s|];
      if a + 1 < |ms| { RunToEnd(hs, ms, a + 1); }
      RunPastMessage(hs, ms, a, |s|);
    }
  }

  lemma NothingRuns(hs: Handlers)
    ensures Stream([]) == [] && Run(hs, [], Idle, [], false) == START && NothingBehind(hs, [], Idle, [])
  {
    FirstLineOfNothing();
  }

  lemma StartsAtZero(ms: seq<Message>)
    ensures StartOf(ms, 0) == 0
  {
    assert ms[..0] == [];
  }

  // ---------------------------------------------------------------- reads up to the end of a head

  // The state after the first `j` reads.
  function After(hs: Handlers, chunks: seq<seq<byte>>, j: nat): State
    requires j <= |chunks|
  {
    FeedAll(hs, START, chunks[..j])
  }

  lemma AfterNext(hs: Handlers, chunks: seq<seq<byte>>, j: nat)
    requires j < |chunks|
    ensures After(hs, chunks, j + 1) == Feed(hs, After(hs, chunks, j), chunks[j])
  {
    assert chunks[..j + 1][..j] == chunks[..j];
  }

  // From messages handed over, with nothing left behind, reads go on as one read would, up to a place that nothing
  // before is told apart from.
  lemma {:induction false} ReadsRun(hs: Handlers, log: seq<Message>, chunks: seq<seq<byte>>, i: nat, j: nat, z: nat)
    requires NoneEmpty(chunks) && i <= j <= |chunks| && Cut(chunks, i) <= z <= |Concat(chunks)|
    requires After(hs, chunks, i) == Open(log, Idle, [], false)
    requires NothingBehind(hs, log, Idle, Concat(chunks)[Cut(chunks, i)..z]) && Cut(chunks, j) <= z
    ensures Cut(chunks, i) <= Cut(chunks, j)
    ensures After(hs, chunks, j) == Run(hs, log, Idle, Concat(chunks)[Cut(chunks, i)..Cut(chunks, j)], false)
    decreases j - i
  {
    hide Run, NothingBehind, Feed, FeedAll, Concat;
    CutsGrow(chunks, i, j);
    var s, p, q := Concat(chunks), Cut(chunks, i), Cut(chunks, j);
    if i == j {
      RunOfNothing(hs, log);
      assert s[p..q] == [];
    } else {
      var o := Cut(chunks, j - 1);
      ChunkAt(chunks, j - 1);
      AfterNext(hs, chunks, j - 1);
      CutsGrow(chunks, i, j - 1);
      ReadsRun(hs, log, chunks, i, j - 1, z);
      Glue(s, p, o, q);
      Glue(s, p, q, z);
      NothingBehindBefore(hs, log, s[p..q], s[q..z], s[p..z]);
      RunInTwo(hs, log, Idle, s[p..o], s[o..q]);
    }
  }

  lemma Glue(s: seq<byte>, x: nat, y: nat, z: nat)
    requires x <= y <= z <= |s|
    ensures s[x..y] + s[y..z] == s[x..z]
  {}

  lemma RunOfNothing(hs: Handlers, log: seq<Message>)
    ensures Run(hs, log, Idle, [], false) == Open(log, Idle, [], false)
  {
    FirstLineOfNothing();
  }

  lemma NothingBehindBefore(hs: Handlers, log: seq<Message>, a: seq<byte>, b: seq<byte>, s: seq<byte>)
    requires s == a + b && NothingBehind(hs, log, Idle, s)
    ensures NothingBehind(hs, log, Idle, a)
  {
    hide NothingBehind, Run, Feed;
    if b == [] { assert s == a; } else { RunInTwo(hs, log, Idle, a, b); }
  }

  // The read that brings the end of a head, and maybe more.
  lemma HeadArrives(hs: Handlers, ms: seq<Message>, chunks: seq<seq<byte>>, a: nat, i: nat, b: nat, j: nat)
    requires Arriving(hs, ms, chunks, a, i) && b == FirstBody(ms, a) < |ms|
    requires i < j <= |chunks| && Cut(chunks, j - 1) < HeadEnd(ms, b) <= Cut(chunks, j)
    ensures Cut(chunks, j) <= |Stream(ms)|
    ensures After(hs, chunks, j)
            == Open(ms[..b], Body(Bodiless(ms[b]), |ms[b].body|), Stream(ms)[HeadEnd(ms, b)..Cut(chunks, j)], false)
  {
    hide Run, NothingBehind, Feed, FeedAll, Concat, Stream, Head, WellFormed, Welcome;
    var s, p, o, h, q := Stream(ms), StartOf(ms, a), Cut(chunks, j - 1), HeadEnd(ms, b), Cut(chunks, j);
    MessageAt(ms, b);
    ChunkAt(chunks, j - 1);
    AfterNext(hs, chunks, j - 1);
    RunToBody(hs, ms, a, b, q);
    ReadsRun(hs, ms[..a], chunks, i, j - 1, h);
    Glue(s, p, o, h);
    Glue(s, o, h, q);
    Glue(s, p, o, q);
    RunInTwoAndMore(hs, ms[..a], Idle, s[p..o], s[o..h], s[h..q]);
  }

  // The first `i` reads have brought the first `a` messages and nothing more.
  predicate Arriving(hs: Handlers, ms: seq<Message>, chunks: seq<seq<byte>>, a: nat, i: nat) {
    && Welcome(hs, ms) && NoneEmpty(chunks) && Concat(chunks) == Stream(ms)
    && a <= |ms| && i <= |chunks| && Cut(chunks, i) == StartOf(ms, a)
    && After(hs, chunks, i) == Open(ms[..a], Idle, [], false)
  }

  // ---------------------------------------------------------------- bodies

  // A connection that has ended, or has taken too much for a body: no message comes out of it any more.
  predicate Stuck(st: State) {
    || (st.Dead? && st.cause == BodyOverrun)
    || (st.Open? && !st.closed && st.progress.Body? && st.rest == []
        && 0 < st.progress.expected < |st.progress.message.body|)
  }

  lemma {:induction false} StuckStays(hs: Handlers, chunks: seq<seq<byte>>, j: nat, k: nat)
    requires NoneEmpty(chunks) && j <= k <= |chunks| && Stuck(After(hs, chunks, j))
    ensures Stuck(After(hs, chunks, k))
    decreases k - j
  {
    hide After;
    if j < k {
      StuckStays(hs, chunks, j, k - 1);
      AfterNext(hs, chunks, k - 1);
    }
  }

  // One read brings the rest of the body, or the message is lost.
  lemma BodyArrives(hs: Handlers, log: seq<Message>, m: Message, s: seq<byte>, chunk: seq<byte>)
    requires m.body != [] && chunk != [] && BodyFits(hs, m) && (|s + chunk| == |m.body| ==> s + chunk == m.body)
    ensures var st := Feed(hs, Open(log, Body(Bodiless(m), |m.body|), s, false), chunk);
            if |s + chunk| == |m.body| then st == Handle(hs, log, m, [], false) else Stuck(st)
  {
    assert Bodiless(m).body + (s + chunk) == s + chunk;
    if |s + chunk| == |m.body| { assert m.(body := s + chunk) == m; }
  }

  // A body's rest is a read of its own, and the read before it holds the end of the head.
  predicate BodyInOneRead(ms: seq<Message>, chunks: seq<seq<byte>>, i: nat)
    requires i < |ms|
  {
    exists j :: 0 < j < |chunks| && CutsBody(ms, chunks, i, j)
  }

  predicate CutsBody(ms: seq<Message>, chunks: seq<seq<byte>>, i: nat, j: nat)
    requires i < |ms| && 0 < j < |chunks|
  {
    Cut(chunks, j - 1) < HeadEnd(ms, i) <= Cut(chunks, j) < StartOf(ms, i + 1) == Cut(chunks, j + 1)
  }

  // There is one such read at most.
  lemma CutsBodyOnce(ms: seq<Message>, chunks: seq<seq<byte>>, i: nat, j: nat)
    requires NoneEmpty(chunks) && i < |ms| && 0 < j <= |chunks|
    requires Cut(chunks, j - 1) < HeadEnd(ms, i) <= Cut(chunks, j)
    ensures BodyInOneRead(ms, chunks, i) <==> j < |chunks| && CutsBody(ms, chunks, i, j)
  {
    hide Cut, HeadEnd, StartOf;
    forall k | 0 < k < |chunks| && CutsBody(ms, chunks, i, k) ensures k == j {
      if k < j { CutsGrow(chunks, k, j - 1); }
      if j < k { CutsGrow(chunks, j, k - 1); }
    }
  }

  // The first cut at or behind a place.
  lemma FirstCut(chunks: seq<seq<byte>>, i: nat, z: nat) returns (j: nat)
    requires i <= |chunks| && Cut(chunks, i) < z <= |Concat(chunks)|
    ensures i < j <= |chunks| && Cut(chunks, j - 1) < z <= Cut(chunks, j)
  {
    hide Concat;
    assert chunks[..|chunks|] == chunks;
    j := i + 1;
    while Cut(chunks, j) < z
      invariant i < j <= |chunks| && Cut(chunks, j - 1) < z
      decreases |chunks| - j
    {
      j := j + 1;
    }
  }

  // ---------------------------------------------------------------- whole streams

  predicate BodiesInOneRead(ms: seq<Message>, chunks: seq<seq<byte>>, a: nat) {
    forall i :: a <= i < |ms| && ms[i].body != [] ==> BodyInOneRead(ms, chunks, i)
  }

  lemma {:induction false} DeliveredFrom(hs: Handlers, ms: seq<Message>, chunks: seq<seq<byte>>, a: nat, i: nat)
    requires Arriving(hs, ms, chunks, a, i) && (a == |ms| ==> ms == [])
    ensures FeedAll(hs, START, chunks) == Final(hs, ms) <==> BodiesInOneRead(ms, chunks, a)
    decreases |ms| - a
  {
    hide Run, NothingBehind, Feed, FeedAll, Concat, Stream, Head, WellFormed, Welcome, Cut, HeadEnd, StartOf;
    hide BodyInOneRead, CutsBody, Handle;
    var b, n := FirstBody(ms, a), |chunks|;
    assert chunks[..n] == chunks && After(hs, chunks, n) == FeedAll(hs, START, chunks);
    if b == |ms| {
      AllArrive(hs, ms, chunks, a, i);
    } else {
      HeadIsAhead(ms, a, b);
      CutAtEnd(chunks);
      var j := FirstCut(chunks, i, HeadEnd(ms, b));
      HeadArrives(hs, ms, chunks, a, i, b, j);
      CutsBodyOnce(ms, chunks, b, j);
      if j == n {
        FinalIsIdle(hs, ms);
      } else {
        assert WellFormed(hs, ms[b]) by { WelcomeEach(hs, ms, b); }
        BodyDelivered(hs, ms, chunks, b, j);
        if CutsBody(ms, chunks, b, j) {
          if b + 1 < |ms| {
            ArrivedNext(hs, ms, chunks, b, j);
            DeliveredFrom(hs, ms, chunks, b + 1, j + 1);
          } else {
            LastArrived(hs, ms, chunks, b, j);
          }
        } else {
          StuckStays(hs, chunks, j + 1, n);
          FinalIsIdle(hs, ms);
        }
      }
    }
  }

  lemma AllArrive(hs: Handlers, ms: seq<Message>, chunks: seq<seq<byte>>, a: nat, i: nat)
    requires Arriving(hs, ms, chunks, a, i) && (a == |ms| ==> ms == []) && FirstBody(ms, a) == |ms|
    ensures FeedAll(hs, START, chunks) == Final(hs, ms)
  {
    hide Run, NothingBehind, Feed, FeedAll, Concat, Stream, Head, WellFormed, Welcome;
    var n := |chunks|;
    assert chunks[..n] == chunks && After(hs, chunks, n) == FeedAll(hs, START, chunks);
    CutAtEnd(chunks);
    RunToEnd(hs, ms, a);
    var s := Stream(ms);
    assert s[StartOf(ms, a)..] == s[StartOf(ms, a)..|s|];
    ReadsRun(hs, ms[..a], chunks, i, n, |s|);
  }

  lemma WelcomeEach(hs: Handlers, ms: seq<Message>, b: nat)
    requires Welcome(hs, ms) && b < |ms|
    ensures WellFormed(hs, ms[b])
  {}

  lemma CutAtEnd(chunks: seq<seq<byte>>)
    ensures Cut(chunks, |chunks|) == |Concat(chunks)|
  {
    assert chunks[..|chunks|] == chunks;
  }

  lemma {:induction false} StartsGrow(ms: seq<Message>, a: nat, b: nat)
    requires a <= b <= |ms|
    ensures StartOf(ms, a) <= StartOf(ms, b)
    decreases b - a
  {
    if a < b {
      MessageAt(ms, a);
      StartsGrow(ms, a + 1, b);
    }
  }

  lemma HeadIsAhead(ms: seq<Message>, a: nat, b: nat)
    requires a <= b < |ms|
    ensures StartOf(ms, a) < HeadEnd(ms, b) <= |Stream(ms)|
  {
    StartsGrow(ms, a, b);
    MessageAt(ms, b);
  }

  lemma FinalIsIdle(hs: Handlers, ms: seq<Message>)
    ensures var st := Final(hs, ms); (st.Open? ==> st.progress.Idle?) && !Stuck(st)
  {}

  // The read behind the one that holds the end of the head.
  lemma BodyDelivered(hs: Handlers, ms: seq<Message>, chunks: seq<seq<byte>>, b: nat, j: nat)
    requires NoneEmpty(chunks) && Concat(chunks) == Stream(ms) && b < |ms| && ms[b].body != [] && WellFormed(hs, ms[b])
    requires 0 < j < |chunks| && Cut(chunks, j - 1) < HeadEnd(ms, b) <= Cut(chunks, j) <= |Stream(ms)|
    requires After(hs, chunks, j)
             == Open(ms[..b], Body(Bodiless(ms[b]), |ms[b].body|), Stream(ms)[HeadEnd(ms, b)..Cut(chunks, j)], false)
    ensures if CutsBody(ms, chunks, b, j) then After(hs, chunks, j + 1) == Handle(hs, ms[..b], ms[b], [], false)
            else Stuck(After(hs, chunks, j + 1))
  {
    hide Feed, FeedAll, Concat, Stream, Head, Handle, After, Cut, HeadEnd, StartOf, Stuck, Handlers.ContentLength;
    var s, h, q, r := Stream(ms), HeadEnd(ms, b), Cut(chunks, j), Cut(chunks, j + 1);
    ChunkAt(chunks, j);
    MessageAt(ms, b);
    AfterNext(hs, chunks, j);
    Glue(s, h, q, r);
    BodyArrives(hs, ms[..b], ms[b], s[h..q], chunks[j]);
  }

  lemma ArrivedNext(hs: Handlers, ms: seq<Message>, chunks: seq<seq<byte>>, b: nat, j: nat)
    requires Welcome(hs, ms) && NoneEmpty(chunks) && Concat(chunks) == Stream(ms) && b + 1 < |ms|
    requires 0 < j < |chunks| && CutsBody(ms, chunks, b, j)
    requires After(hs, chunks, j + 1) == Handle(hs, ms[..b], ms[b], [], false)
    ensures Arriving(hs, ms, chunks, b + 1, j + 1)
  {
    hide After, WellFormed, Concat, Stream, Handlers.AsksToClose;
    assert ms[..b] + [ms[b]] == ms[..b + 1];
  }

  lemma LastArrived(hs: Handlers, ms: seq<Message>, chunks: seq<seq<byte>>, b: nat, j: nat)
    requires NoneEmpty(chunks) && Concat(chunks) == Stream(ms) && b + 1 == |ms|
    requires 0 < j < |chunks| && CutsBody(ms, chunks, b, j)
    requires After(hs, chunks, j + 1) == Handle(hs, ms[..b], ms[b], [], false)
    ensures FeedAll(hs, START, chunks) == Final(hs, ms)
  {
    hide FeedAll, Concat, Stream, Handle;
    assert ms[..b + 1] == ms;
    CutAtEnd(chunks);
    if j + 1 < |chunks| { CutsGrow(chunks, j + 1, |chunks|); }
    assert chunks[..|chunks|] == chunks;
  }

  /**
   * Messages are handed over as they were sent, in order, with nothing left behind, if and only if the rest of every
   * body is a read of its own and the read before it holds the end of the head.
   */
  lemma MessagesArrive(hs: Handlers, ms: seq<Message>, chunks: seq<seq<byte>>)
    requires Welcome(hs, ms) && NoneEmpty(chunks) && Concat(chunks) == Stream(ms)
    ensures FeedAll(hs, START, chunks) == Final(hs, ms) <==> BodiesInOneRead(ms, chunks, 0)
  {
    assert chunks[..0] == [] && ms[..0] == [];
    DeliveredFrom(hs, ms, chunks, 0, 0);
  }

  /** Messages without bodies are handed over as they were sent, in order, however their octets arrive. */
  lemma Pipelined(hs: Handlers, ms: seq<Message>, chunks: seq<seq<byte>>)
    requires Welcome(hs, ms) && NoneEmpty(chunks) && Concat(chunks) == Stream(ms)
    requires forall m :: m in ms ==> m.body == []
    ensures FeedAll(hs, START, chunks) == Final(hs, ms)
  {
    hide Welcome, Stream, Concat, Final, FeedAll;
    MessagesArrive(hs, ms, chunks);
  }

  // The last read is part of the body, and the one before it holds the end of the head.
  predicate LastReadInBody(m: Message, chunks: seq<seq<byte>>) {
    var k := |chunks|;
    k >= 2 && |chunks[k - 1]| <= |m.body| < |chunks[k - 1]| + |chunks[k - 2]|
  }

  /** A message is recovered if and only if it has no body or just the last two of its reads meet inside the body. */
  lemma MessageArrives(hs: Handlers, m: Message, chunks: seq<seq<byte>>)
    requires WellFormed(hs, m) && NoneEmpty(chunks) && Concat(chunks) == Head(m) + m.body
    ensures FeedAll(hs, START, chunks) == Handle(hs, [], m, [], false) <==> m.body == [] || LastReadInBody(m, chunks)
  {
    hide WellFormed, Head, Concat, FeedAll, Handle;
    var ms := [m];
    OneMessage(m);
    MessagesArrive(hs, ms, chunks);
    if m.body != [] { LastTwoReads(m, chunks); }
  }

  lemma OneMessage(m: Message)
    ensures Stream([m]) == Head(m) + m.body && StartOf([m], 1) == |Head(m) + m.body| && HeadEnd([m], 0) == |Head(m)|
    ensures [m][..0] == []
  {
    hide Head;
    assert [m][..0] == [] && [m][..1] == [m];
    assert Stream([]) == [];
  }

  lemma LastTwoReads(m: Message, chunks: seq<seq<byte>>)
    requires m.body != [] && NoneEmpty(chunks) && Concat(chunks) == Head(m) + m.body
    ensures BodyInOneRead([m], chunks, 0) <==> LastReadInBody(m, chunks)
  {
    hide Head, Concat, Cut, StartOf, HeadEnd;
    OneMessage(m);
    CutAtEnd(chunks);
    var k := |chunks|;
    if k >= 2 {
      ChunkAt(chunks, k - 1);
      ChunkAt(chunks, k - 2);
      if LastReadInBody(m, chunks) { assert CutsBody([m], chunks, 0, k - 1); }
    }
    forall j | 0 < j < k && CutsBody([m], chunks, 0, j) ensures j == k - 1 {
      CutsGrow(chunks, j + 1, k);
    }
  }

  /** What is sent for a message is read back to it, if and only if it has no body or its reads are such. */
  lemma SentMessageArrives(hs: Handlers, m: Message, date: seq<byte>, sent: Message, octets: seq<byte>,
                           chunks: seq<seq<byte>>)
    requires Sendable(m, date)
    requires octets == Head(sent) + m.body && sent.firstLine == m.firstLine && sent.body == m.body
    requires multiset(sent.headers) == multiset(Outgoing(m.headers, date, |m.body|))
    requires NoneEmpty(chunks) && Concat(chunks) == octets
    ensures FeedAll(hs, START, chunks) == Handle(hs, [], sent, [], false) <==>
            m.body == [] || LastReadInBody(m, chunks)
  {
    hide Sendable, Head, Concat, FeedAll, Handle, Outgoing, WellFormed;
    SentIsWellFormed(hs, m, date, sent);
    MessageArrives(hs, sent, chunks);
  }
}
