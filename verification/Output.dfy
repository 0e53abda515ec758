/** A connection's output: a corking payload over a queue over a socket that takes what it likes. */
module Output {
  import opened Octets

  // ---------------------------------------------------------------- the socket

  // What the kernel does with a send: take up to so many octets, ask to be tried again, or fail.
  datatype Answer = Took(n: nat) | Again | Failed

  datatype Outcome = Sent(n: nat) | WouldBlock | Error

  // The octets that have left, those queued, whether the connection is open and polled for output, and what the kernel
  // is going to answer. It asks to be tried again when it has nothing else to say.
  datatype Net = Net(wire: seq<byte>, queued: seq<byte>, open: bool, pollsOut: bool, answers: seq<Answer>)
  {
    // Everything on its way, in order.
    function Output(): seq<byte> {
      wire + queued
    }
  }

  function Kernel(net: Net, octets: seq<byte>): (r: (Net, Outcome))
    ensures r.1.Sent? ==> r.1.n <= |octets| && |r.0.answers| < |net.answers|
    ensures r.1.Sent? ==> r.0.wire == net.wire + octets[..r.1.n]
  {
    if !net.open then (net, Error)
    else if net.answers == [] then (net, WouldBlock)
    else
      var rest := net.(answers := net.answers[1..]);
      match net.answers[0]
      case Again => (rest, WouldBlock)
      case Failed => (rest, Error)
      case Took(n) =>
        var k := if n < |octets| then n else |octets|;
        (rest.(wire := net.wire + octets[..k]), Sent(k))
  }

  // ---------------------------------------------------------------- sending at once

  // The octets at `from`, which go on behind the data with whatever memory holds there.
  function Window(data: seq<byte>, junk: nat -> byte, from: nat, count: nat): (w: seq<byte>)
    ensures |w| == count
  {
    seq(count, i requires i >= 0 => if from + i < |data| then data[from + i] else junk(from + i))
  }

  lemma WindowShowsData(data: seq<byte>, junk: nat -> byte, from: nat, count: nat, k: nat)
    requires k <= count && from + k <= |data|
    ensures Window(data, junk, from, count)[..k] == data[from..from + k]
  {}

  datatype Push = Push(net: Net, total: nat, broken: bool)

  // The send loop. Every try offers as many octets more as have been sent, not fewer.
  function Pushed(net: Net, data: seq<byte>, junk: nat -> byte, total: nat): (p: Push)
    decreases |net.answers|
  {
    var (after, outcome) := Kernel(net, Window(data, junk, total, |data| + total));
    match outcome
    case WouldBlock => Push(after, total, false)
    case Error => Push(after, total, true)
    case Sent(n) =>
      if n == 0 then Push(after, total, true)
      else if total + n < |data| then Pushed(after, data, junk, total + n)
      else Push(after, total + n, false)
  }

  // What is not sent is queued. A send that takes nothing closes the connection.
  function SentImmediate(net: Net, data: seq<byte>, junk: nat -> byte): Net {
    var p := Pushed(net, data, junk, 0);
    if p.broken then p.net.(open := false)
    else if p.total < |data| then p.net.(queued := p.net.queued + data[p.total..])
    else p.net
  }

  // The kernel never takes more than there is left to send.
  predicate Modest(net: Net, len: nat, total: nat)
    requires total <= len
    decreases |net.answers|
  {
    net.open && net.answers != [] && net.answers[0].Took? ==>
      var n := net.answers[0].n;
      var offered := len + total;
      var k := if n < offered then n else offered;
      total + k <= len && (0 < k < len - total ==> Modest(net.(answers := net.answers[1..]), len, total + k))
  }

  lemma {:induction false} PushedInOrder(net: Net, data: seq<byte>, junk: nat -> byte, total: nat)
    requires total <= |data|
    ensures var p := Pushed(net, data, junk, total);
            && total <= p.total
            && p.net.queued == net.queued && p.net.open == net.open && p.net.pollsOut == net.pollsOut
            && |p.net.wire| == |net.wire| + p.total - total
            && (p.total <= |data| ==> p.net.wire == net.wire + data[total..p.total])
            && (p.broken ==> p.total <= |data|)
            && (!p.broken ==> net.open)
    decreases |net.answers|
  {
    hide Window;
    var (after, outcome) := Kernel(net, Window(data, junk, total, |data| + total));
    if outcome.Sent? && outcome.n != 0 {
      var n := outcome.n;
      if total + n <= |data| {
        WindowShowsData(data, junk, total, |data| + total, n);
      }
      if total + n < |data| {
        PushedInOrder(after, data, junk, total + n);
        DataInTwo(net.wire, data, total, n, Pushed(after, data, junk, total + n).total);
      }
    }
  }

  lemma DataInTwo(wire: seq<byte>, data: seq<byte>, from: nat, n: nat, to: nat)
    ensures from + n <= to <= |data| ==> wire + data[from..from + n] + data[from + n..to] == wire + data[from..to]
  {}

  lemma {:induction false} PushedModestly(net: Net, data: seq<byte>, junk: nat -> byte, total: nat)
    requires total <= |data|
    ensures Pushed(net, data, junk, total).total <= |data| <==> Modest(net, |data|, total)
    decreases |net.answers|
  {
    hide Window;
    var (after, outcome) := Kernel(net, Window(data, junk, total, |data| + total));
    if outcome.Sent? && 0 < outcome.n < |data| - total {
      PushedModestly(after, data, junk, total + outcome.n);
      ModestIgnoresWire(after, net.(answers := net.answers[1..]), |data|, total + outcome.n);
    }
  }

  lemma {:induction false} ModestIgnoresWire(a: Net, b: Net, len: nat, total: nat)
    requires a.open == b.open && a.answers == b.answers && total <= len
    ensures Modest(a, len, total) == Modest(b, len, total)
    decreases |a.answers|
  {
    if a.open && a.answers != [] && a.answers[0].Took? {
      var n := a.answers[0].n;
      var k := if n < len + total then n else len + total;
      if 0 < k < len - total {
        ModestIgnoresWire(a.(answers := a.answers[1..]), b.(answers := b.answers[1..]), len, total + k);
      }
    }
  }

  /**
   * Sending at once adds the data to the output, or sends some of it and closes the connection. If the kernel is not
   * modest, more leaves than the data.
   */
  lemma SentImmediateInOrder(net: Net, data: seq<byte>, junk: nat -> byte)
    requires net.queued == []
    ensures var after := SentImmediate(net, data, junk);
            if Modest(net, |data|, 0)
            then (if after.open then after.Output() == net.Output() + data else after.queued == [])
                 && net.wire <= after.wire <= net.wire + data
            else after.open && |after.Output()| > |net.Output() + data|
    ensures SentImmediate(net, data, junk).pollsOut == net.pollsOut
  {
    hide Pushed, Modest, Kernel;
    PushedInOrder(net, data, junk, 0);
    PushedModestly(net, data, junk, 0);
    if Modest(net, |data|, 0) { SentWithin(net, data, junk); }
  }

  lemma SentWithin(net: Net, data: seq<byte>, junk: nat -> byte)
    requires net.queued == [] && Pushed(net, data, junk, 0).total <= |data|
    ensures var after := SentImmediate(net, data, junk);
            && (if after.open then after.Output() == net.Output() + data else after.queued == [])
            && net.wire <= after.wire <= net.wire + data
  {
    hide Pushed, Kernel;
    PushedInOrder(net, data, junk, 0);
    var p := Pushed(net, data, junk, 0);
    var sent, rest := data[..p.total], data[p.total..];
    assert data[0..p.total] == sent && net.wire + sent + rest == net.wire + data;
  }

  /** An empty send closes the connection as soon as the kernel takes it. */
  lemma EmptySendCloses(net: Net, junk: nat -> byte)
    requires net.open && net.answers != [] && net.answers[0].Took?
    ensures !SentImmediate(net, [], junk).open
  {}

  // A kernel that takes one octet and then all it is offered.
  function Greedy(len: nat): seq<Answer> {
    [Took(1), Took(2 * len)]
  }

  /** Offered two octets or more, such a kernel gets octets that nobody meant to send. */
  lemma JunkOnTheWire(net: Net, data: seq<byte>, junk: nat -> byte)
    requires net.open && |data| >= 2 && net.answers == Greedy(|data|)
    ensures |SentImmediate(net, data, junk).wire| == |net.wire| + |data| + 2 && SentImmediate(net, data, junk).open
    ensures !Modest(net, |data|, 0)
  {
    var (after, first) := Kernel(net, Window(data, junk, 0, |data|));
    assert first == Sent(1) && after.answers == [Took(2 * |data|)];
    assert Pushed(net, data, junk, 0) == Pushed(after, data, junk, 1);
    assert Kernel(after, Window(data, junk, 1, |data| + 1)).1 == Sent(|data| + 1);
    PushedModestly(net, data, junk, 0);
  }

  /** Whatever the kernel answers, an immediate send keeps the output in order or closes, just up to one octet. */
  lemma SentImmediateExactly(net: Net, data: seq<byte>, junk: nat -> byte)
    requires net.open && net.queued == []
    ensures (forall answers ::
               var after := SentImmediate(net.(answers := answers), data, junk);
               after.open ==> after.Output() == net.Output() + data)
            <==> |data| <= 1
  {
    hide SentImmediate;
    if |data| <= 1 {
      forall answers
        ensures var after := SentImmediate(net.(answers := answers), data, junk);
                after.open ==> after.Output() == net.Output() + data
      {
        ShortIsModest(net.(answers := answers), |data|);
        SentImmediateInOrder(net.(answers := answers), data, junk);
      }
    } else {
      var greedy := net.(answers := Greedy(|data|));
      JunkOnTheWire(greedy, data, junk);
      assert |SentImmediate(greedy, data, junk).Output()| > |net.Output() + data|;
    }
  }

  /** Of one octet, no kernel takes more than there is. */
  lemma ShortIsModest(net: Net, len: nat)
    requires len <= 1
    ensures Modest(net, len, 0)
  {}

  // ---------------------------------------------------------------- sending what is queued

  function Drained(net: Net): (r: (Net, bool))
    ensures r.0.open == net.open && r.0.pollsOut == net.pollsOut
    ensures r.0.Output() == net.Output() && net.wire <= r.0.wire
    decreases |net.answers|
  {
    var (after, outcome) := Kernel(net, net.queued);
    match outcome
    case WouldBlock => (after, false)
    case Error => (after, true)
    case Sent(n) =>
      var shorter := after.(queued := net.queued[n..]);
      assert shorter.Output() == net.Output();
      if n > 0 && shorter.queued != [] then Drained(shorter) else (shorter, false)
  }

  // The socket is polled for output while something is queued; this is asked for only when nothing is.
  function Subscribed(net: Net): Net {
    net.(pollsOut := net.queued != [])
  }

  function PolledOut(net: Net): Net {
    if net.queued == [] then if net.open then Subscribed(net) else net
    else
      var (after, broken) := Drained(net);
      if broken then after.(open := false)
      else if after.queued == [] then Subscribed(after)
      else after
  }

  function SentNet(net: Net, data: seq<byte>, junk: nat -> byte): Net {
    if net.queued == [] then SentImmediate(net, data, junk) else PolledOut(net.(queued := net.queued + data))
  }

  /** Sending what is queued reorders nothing and loses nothing, and never asks to be polled for output. */
  lemma PolledOutKeeps(net: Net)
    ensures PolledOut(net).Output() == net.Output() && net.wire <= PolledOut(net).wire
    ensures !net.pollsOut ==> !PolledOut(net).pollsOut
  {}

  lemma SentNetInOrder(net: Net, data: seq<byte>, junk: nat -> byte)
    ensures var after := SentNet(net, data, junk);
            if net.queued == [] ==> Modest(net, |data|, 0)
            then (after.open ==> after.Output() == net.Output() + data)
                 && net.wire <= after.wire <= net.Output() + data
            else after.open && |after.Output()| > |net.Output() + data|
    ensures !net.pollsOut ==> !SentNet(net, data, junk).pollsOut
  {
    hide SentImmediate, Modest, PolledOut;
    if net.queued == [] {
      SentImmediateInOrder(net, data, junk);
      assert net.Output() + data == net.wire + data;
    } else {
      var longer := net.(queued := net.queued + data);
      PolledOutKeeps(longer);
      assert longer.Output() == net.Output() + data;
    }
  }

  // ---------------------------------------------------------------- how far a send gets

  function Tooks(ns: seq<nat>): seq<Answer> {
    if ns == [] then [] else [Took(ns[0])] + Tooks(ns[1..])
  }

  function Sum(ns: seq<nat>): nat {
    if ns == [] then 0 else ns[0] + Sum(ns[1..])
  }

  predicate Positive(ns: seq<nat>) {
    forall i :: 0 <= i < |ns| ==> ns[i] > 0
  }

  // The kernel takes some, time and again, but not all.
  predicate TakesSome(net: Net, ns: seq<nat>, rest: seq<Answer>, len: nat) {
    net.open && net.answers == Tooks(ns) + rest && Positive(ns) && Sum(ns) < len
  }

  lemma TakesNext(net: Net, ns: seq<nat>, rest: seq<Answer>, len: nat)
    requires TakesSome(net, ns, rest, len) && ns != []
    ensures net.answers != [] && net.answers[0] == Took(ns[0]) && 0 < ns[0] < len && Positive(ns[1..])
    ensures net.answers[1..] == Tooks(ns[1..]) + rest && Sum(ns[1..]) < len - ns[0]
  {
    var more := Tooks(ns[1..]);
    assert Tooks(ns) == [Took(ns[0])] + more;
    assert net.answers == [Took(ns[0])] + (more + rest);
    assert ns[0] > 0 && forall i :: 0 <= i < |ns| - 1 ==> ns[1..][i] == ns[i + 1];
  }

  lemma {:induction false} PushedSome(net: Net, data: seq<byte>, junk: nat -> byte, total: nat, ns: seq<nat>,
                                      rest: seq<Answer>)
    requires total <= |data| && TakesSome(net, ns, rest, |data| - total)
    ensures Pushed(net, data, junk, total)
            == Pushed(net.(answers := rest, wire := net.wire + data[total..total + Sum(ns)]), data, junk,
                      total + Sum(ns))
    decreases |ns|
  {
    if ns == [] {
      assert Tooks(ns) + rest == rest && net.wire + data[total..total] == net.wire;
    } else {
      TakesNext(net, ns, rest, |data| - total);
      var n := ns[0];
      WindowShowsData(data, junk, total, |data| + total, n);
      var after := net.(answers := net.answers[1..], wire := net.wire + data[total..total + n]);
      PushedSome(after, data, junk, total + n, ns[1..], rest);
      DataInTwo(net.wire, data, total, n, total + Sum(ns));
    }
  }

  lemma {:induction false} DrainedSome(net: Net, ns: seq<nat>, rest: seq<Answer>)
    requires TakesSome(net, ns, rest, |net.queued|)
    ensures Drained(net)
            == Drained(net.(answers := rest, wire := net.wire + net.queued[..Sum(ns)], queued := net.queued[Sum(ns)..]))
    decreases |ns|
  {
    if ns == [] {
      assert Tooks(ns) + rest == rest && net.wire + net.queued[..0] == net.wire && net.queued[0..] == net.queued;
    } else {
      TakesNext(net, ns, rest, |net.queued|);
      var n, q := ns[0], net.queued;
      var after := net.(answers := net.answers[1..], wire := net.wire + q[..n], queued := q[n..]);
      DrainedSome(after, ns[1..], rest);
      QueueInTwo(net.wire, q, n, Sum(ns[1..]));
    }
  }

  lemma QueueInTwo(wire: seq<byte>, q: seq<byte>, n: nat, m: nat)
    requires n + m <= |q|
    ensures wire + q[..n] + q[n..][..m] == wire + q[..n + m] && q[n..][m..] == q[n + m..]
  {}

  /**
   * A send gets as far as the kernel takes what is queued and then the data. If the kernel then asks to be tried again,
   * the others wait in the queue; if it fails, the connection closes.
   */
  lemma SentUpTo(net: Net, data: seq<byte>, junk: nat -> byte, ns: seq<nat>, last: Answer, rest: seq<Answer>)
    requires last in {Again, Failed} && TakesSome(net, ns, [last] + rest, |net.queued| + |data|)
    ensures var after, all := SentNet(net, data, junk), net.queued + data;
            && after.wire == net.wire + all[..Sum(ns)]
            && (after.open <==> last == Again)
            && (last == Again ==> after.queued == all[Sum(ns)..])
  {
    var all, k := net.queued + data, Sum(ns);
    var stopped := [last] + rest;
    if net.queued == [] {
      assert all == data;
      PushedSome(net, data, junk, 0, ns, stopped);
      assert data[0..0 + k] == all[..k] && net.queued + data[k..] == all[k..];
    } else {
      DrainedSome(net.(queued := all), ns, stopped);
    }
  }

  /** Polled for output, a connection sends as far as the kernel takes what is queued, and closes if it then fails. */
  lemma PolledUpTo(net: Net, ns: seq<nat>, last: Answer, rest: seq<Answer>)
    requires last in {Again, Failed} && TakesSome(net, ns, [last] + rest, |net.queued|)
    ensures var after := PolledOut(net);
            && after.wire == net.wire + net.queued[..Sum(ns)] && after.queued == net.queued[Sum(ns)..]
            && (after.open <==> last == Again)
  {
    DrainedSome(net, ns, [last] + rest);
  }

  /** A kernel that takes all leaves nothing queued, and the connection open. */
  lemma SentWhole(net: Net, data: seq<byte>, junk: nat -> byte, n: nat, rest: seq<Answer>)
    requires net.open && net.answers == [Took(n)] + rest && n >= |net.queued| + |data| > 0
    ensures var after := SentNet(net, data, junk);
            after.open && after.wire == net.wire + (net.queued + data) && after.queued == [] && after.answers == rest
  {
    assert net.answers[1..] == rest;
    if net.queued == [] {
      WindowShowsData(data, junk, 0, |data|, |data|);
      assert data[0..|data|] == data && net.queued + data == data;
    }
  }
}
