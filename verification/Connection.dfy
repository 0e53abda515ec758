/** The payload and connection objects. */
module Connection {
  import opened Octets
  import opened Output
  import opened OutputRuns
  import Buffer = StreamBuf

  class Payload {
    var len: nat
    const data: array<byte>
    const target: Buffer.StreamBuf

    constructor (target: Buffer.StreamBuf)
      requires target.Valid()
      ensures this.target == target && fresh(data) && Valid() && Pending() == []
    {
      this.target := target;
      len := 0;
      data := new byte[CAPACITY](_ => 0);
    }

    ghost predicate Valid()
      reads this, target
    {
      data.Length == CAPACITY && len <= CAPACITY && target.Valid() && data != target.buf
    }

    ghost function Pending(): seq<byte>
      requires Valid()
      reads this, target, data
    {
      data[..len]
    }

    // The payload at work on a line whose queue is the target.
    ghost function On(net: Net): Line
      requires Valid()
      reads this, target, target.buf, data
    {
      Line(net.(queued := target.Contents()), Pending())
    }

    method Flush()
      requires Valid()
      modifies this, target, target.buf
      ensures Valid() && len == 0 && target.Contents() == old(target.Contents() + Pending())
      ensures target.buf == old(target.buf) || fresh(target.buf)
    {
      target.Ensure(len);
      target.FillTail(data[..len]);
      len := 0;
    }

    method Write(octets: seq<byte>)
      requires Valid()
      modifies this, target, target.buf, data
      ensures Valid() && (target.buf == old(target.buf) || fresh(target.buf))
      ensures forall net :: On(net) == Corked(old(On(net)), octets)
    {
      ghost var queued, pending := target.Contents(), Pending();
      if len + |octets| > CAPACITY {
        Flush();
        assert Pending() == [];
      }
      if |octets| > CAPACITY {
        target.Write(octets);
        return;
      }
      var start := len;
      forall i | 0 <= i < |octets| {
        data[start + i] := octets[i];
      }
      len := len + |octets|;
      assert data[..start] == if |pending| + |octets| > CAPACITY then [] else pending;
      assert data[..len] == data[..start] + octets;
    }
  }

  class Connection {
    const incoming: Buffer.StreamBuf
    const outgoing: Buffer.StreamBuf
    var open: bool
    var pollsOut: bool
    // What the kernel is going to answer, and what it has taken.
    var answers: seq<Answer>
    var wire: seq<byte>

    constructor (answers: seq<Answer>)
      ensures fresh(outgoing) && fresh(outgoing.buf) && outgoing.Valid()
      ensures fresh(incoming) && fresh(incoming.buf) && incoming.Valid()
      ensures Line(View(), []) == START.Over(answers)
    {
      incoming := new Buffer.StreamBuf();
      outgoing := new Buffer.StreamBuf();
      open, pollsOut, this.answers, wire := true, false, answers, [];
    }

    ghost function View(): Net
      requires outgoing.Valid()
      reads this, outgoing, outgoing.buf
    {
      Net(wire, outgoing.Contents(), open, pollsOut, answers)
    }

    // Make room and `::read` some of what has arrived.
    method ReadSome(arrived: seq<byte>, upTo: nat) returns (n: nat)
      requires incoming.Valid() && incoming.buf.Length <= SIZE_MAX && upTo > 0
      modifies incoming, incoming.buf
      ensures incoming.Valid() && (incoming.buf == old(incoming.buf) || fresh(incoming.buf))
      ensures n <= |arrived| && incoming.Contents() == old(incoming.Contents()) + arrived[..n]
      ensures n == 0 <==> arrived == [] || |old(incoming.Contents())| == SIZE_MAX
    {
      incoming.Grow();
      var offered := if upTo < incoming.Tailroom() then upTo else incoming.Tailroom();
      n := if offered < |arrived| then offered else |arrived|;
      incoming.FillTail(arrived[..n]);
    }

    // `::send`.
    method KernelSend(octets: seq<byte>) returns (outcome: Outcome)
      requires outgoing.Valid()
      modifies this`answers, this`wire
      ensures (View(), outcome) == Kernel(old(View()), octets)
    {
      if !open {
        return Error;
      }
      if answers == [] {
        return WouldBlock;
      }
      var answer := answers[0];
      answers := answers[1..];
      match answer
      case Again => return WouldBlock;
      case Failed => return Error;
      case Took(n) =>
        var k := if n < |octets| then n else |octets|;
        wire := wire + octets[..k];
        return Sent(k);
    }

    method Close()
      modifies this`open
      ensures !open
    {
      open := false;
    }

    // The kernel refuses a closed descriptor, which throws.
    method UpdateSubscription() returns (thrown: bool)
      requires outgoing.Valid()
      modifies this`pollsOut
      ensures thrown <==> !open
      ensures !thrown ==> (pollsOut <==> outgoing.Contents() != [])
      ensures View() == if thrown then old(View()) else Subscribed(old(View()))
    {
      if !open {
        return true;
      }
      thrown := false;
      pollsOut := outgoing.Size() != 0;
      assert outgoing.Contents() == [] <==> outgoing.Size() == 0;
    }

    method Send(data: seq<byte>, junk: nat -> byte)
      requires outgoing.Valid()
      modifies this, outgoing, outgoing.buf
      ensures outgoing.Valid() && (outgoing.buf == old(outgoing.buf) || fresh(outgoing.buf))
      ensures View() == SentNet(old(View()), data, junk)
    {
      assert outgoing.Contents() == [] <==> outgoing.Size() == 0;
      if outgoing.Size() == 0 {
        SendImmediate(data, junk);
      } else {
        QueueAndSend(data);
      }
    }

    method SendPayload(payload: Payload, junk: nat -> byte)
      requires payload.Valid() && payload.target == outgoing
      modifies this, outgoing, outgoing.buf
      ensures outgoing.Valid() && (outgoing.buf == old(outgoing.buf) || fresh(outgoing.buf))
      ensures Line(View(), []) == Step(old(Line(View(), payload.Pending())), SendCorked(junk))
    {
      Send(payload.data[..payload.len], junk);
    }

    method SendImmediate(data: seq<byte>, junk: nat -> byte)
      requires outgoing.Valid()
      modifies this, outgoing, outgoing.buf
      ensures outgoing.Valid() && (outgoing.buf == old(outgoing.buf) || fresh(outgoing.buf))
      ensures View() == SentImmediate(old(View()), data, junk)
    {
      hide Window;
      ghost var before := View();
      var totalSent: nat := 0;
      var more, broken := true, false;
      while more
        invariant outgoing.Valid() && outgoing.buf == old(outgoing.buf) && outgoing.Contents() == before.queued
        invariant Pushed(before, data, junk, 0)
                  == if more then Pushed(View(), data, junk, totalSent) else Push(View(), totalSent, broken)
        decreases more, |answers|
      {
        var outcome := KernelSend(Window(data, junk, totalSent, |data| + totalSent));
        if outcome.Sent? {
          totalSent := totalSent + outcome.n;
        }
        more := outcome.Sent? && outcome.n > 0 && totalSent < |data|;
        broken := outcome.Error? || outcome == Sent(0);
      }
      if broken {
        Close();
        return;
      }
      if totalSent < |data| {
        outgoing.Write(data[totalSent..]);
      }
    }

    method QueueAndSend(data: seq<byte>)
      requires outgoing.Valid() && outgoing.Contents() != []
      modifies this, outgoing, outgoing.buf
      ensures outgoing.Valid() && (outgoing.buf == old(outgoing.buf) || fresh(outgoing.buf))
      ensures View() == PolledOut(old(View()).(queued := old(View()).queued + data))
    {
      outgoing.Write(data);
      var _ := OnPollOut();
    }

    // Throws on a closed connection with nothing queued.
    method OnPollOut() returns (thrown: bool)
      requires outgoing.Valid()
      modifies this, outgoing, outgoing.buf
      ensures outgoing.Valid() && outgoing.buf == old(outgoing.buf)
      ensures thrown <==> !old(open) && old(outgoing.Contents()) == []
      ensures View() == PolledOut(old(View()))
    {
      thrown := false;
      assert outgoing.Contents() == [] <==> outgoing.Size() == 0;
      if outgoing.Size() == 0 {
        thrown := UpdateSubscription();
        return;
      }
      ghost var before := View();
      var more, broken := true, false;
      while more
        invariant outgoing.Valid() && outgoing.buf == old(outgoing.buf) && (more ==> outgoing.Contents() != [])
        invariant Drained(before) == if more then Drained(View()) else (View(), broken)
        decreases more, |answers|
      {
        var queue := outgoing.Front(outgoing.Size());
        assert queue == outgoing.Contents();
        var outcome := KernelSend(queue);
        if outcome.Sent? && outcome.n > 0 {
          var ok := outgoing.Advance(outcome.n);
        }
        assert outgoing.Contents() == [] <==> outgoing.Size() == 0;
        more := outgoing.Size() != 0 && outcome.Sent? && outcome.n > 0;
        broken := outcome.Error?;
      }
      if broken {
        Close();
        return;
      }
      if outgoing.Size() == 0 {
        thrown := UpdateSubscription();
      }
    }
  }
}
