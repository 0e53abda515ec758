/** Runs of writes and sends on a connection, over every kernel. */
module OutputRuns {
  import opened Octets
  import opened Output

  const CAPACITY := 1440

  // Writing to a payload, sending it, sending past it, and an event that says the socket can take more.
  datatype Op =
    | Cork(data: seq<byte>)
    | SendCorked(junk: nat -> byte)
    | Send(data: seq<byte>, junk: nat -> byte)
    | PollOut

  datatype Line = Line(net: Net, payload: seq<byte>)
  {
    // The same line over another kernel.
    function Over(answers: seq<Answer>): Line {
      this.(net := net.(answers := answers))
    }

    function Output(): seq<byte> {
      net.Output() + payload
    }
  }

  // A write that does not fit flushes the payload to the queue first, and follows it there if it never fits.
  function Corked(line: Line, data: seq<byte>): Line {
    var flushed := if |line.payload| + |data| <= CAPACITY then line
                   else Line(line.net.(queued := line.net.queued + line.payload), []);
    if |data| > CAPACITY then flushed.(net := flushed.net.(queued := flushed.net.queued + data))
    else flushed.(payload := flushed.payload + data)
  }

  // A payload that has been sent is not used again.
  function Step(line: Line, op: Op): Line {
    match op
    case Cork(data) => Corked(line, data)
    case SendCorked(junk) => Line(SentNet(line.net, line.payload, junk), [])
    case Send(data, junk) => line.(net := SentNet(line.net, data, junk))
    case PollOut => line.(net := PolledOut(line.net))
  }

  function Added(op: Op): seq<byte> {
    match op
    case Cork(data) => data
    case Send(data, _) => data
    case _ => []
  }

  function Run(line: Line, ops: seq<Op>): Line {
    if ops == [] then line else Step(Run(line, ops[..|ops| - 1]), ops[|ops| - 1])
  }

  function Written(ops: seq<Op>): seq<byte> {
    if ops == [] then [] else Written(ops[..|ops| - 1]) + Added(ops[|ops| - 1])
  }

  lemma CorkedInOrder(line: Line, data: seq<byte>)
    ensures Corked(line, data).Output() == line.Output() + data
    ensures Corked(line, data).net == line.net.(queued := Corked(line, data).net.queued)
  {
    var a, b, c := line.net.wire, line.net.queued, line.payload;
    assert a + (b + c) + data == a + b + c + data;
    assert a + (b + c + data) == a + b + c + data;
    assert a + b + (c + data) == a + b + c + data;
    assert a + (b + data) == a + b + data;
  }

  /** Writes of up to 1440 octets in all stay together; what does not fit in sends those before to the queue. */
  lemma CorksUpTo1440(line: Line, data: seq<byte>)
    requires |line.payload| <= 1440
    ensures var after := Corked(line, data);
            && |after.payload| <= 1440
            && (|line.payload| + |data| <= 1440 ==> after.net == line.net && after.payload == line.payload + data)
            && (|line.payload| + |data| > 1440 ==> line.net.queued + line.payload <= after.net.queued)
            && (|line.payload| + |data| > 1440 >= |data| ==> after.payload == data)
  {
    var q, p := line.net.queued, line.payload;
    assert q + p <= q + p + data;
  }

  // ---------------------------------------------------------------- one step

  // A step adds its data at the end of the output, or closes the connection.
  predicate Kept(line: Line, op: Op) {
    Step(line, op).net.open ==> Step(line, op).Output() == line.Output() + Added(op)
  }

  // Nothing is sent past a payload in use, unless the order makes no difference, and what is sent with nothing queued
  // is no more than an octet.
  predicate Safe(op: Op, backlog: bool, payload: seq<byte>) {
    match op
    case SendCorked(_) => backlog || |payload| <= 1
    case Send(data, _) => (backlog || |data| <= 1) && payload + data == data + payload
    case _ => true
  }

  lemma SentPastPayload(output: seq<byte>, payload: seq<byte>, data: seq<byte>)
    ensures output + data + payload == output + payload + data <==> payload + data == data + payload
  {
    var a, b := output + data + payload, output + payload + data;
    assert a == output + (data + payload) && b == output + (payload + data);
    assert a[|output|..] == data + payload && b[|output|..] == payload + data;
  }

  lemma SafeStep(line: Line, op: Op)
    requires Safe(op, line.net.queued != [], line.payload)
    ensures Kept(line, op)
  {
    hide SentNet, Modest, PolledOut, Corked;
    match op
    case Cork(data) =>
      CorkedInOrder(line, data);
    case SendCorked(junk) =>
      if line.net.queued == [] { ShortIsModest(line.net, |line.payload|); }
      SentNetInOrder(line.net, line.payload, junk);
      assert line.Output() + [] == line.net.Output() + line.payload;
      assert Step(line, op).Output() == SentNet(line.net, line.payload, junk).Output();
    case Send(data, junk) =>
      if line.net.queued == [] { ShortIsModest(line.net, |data|); }
      SentNetInOrder(line.net, data, junk);
      SentPastPayload(line.net.Output(), line.payload, data);
    case PollOut =>
      PolledOutKeeps(line.net);
      assert line.Output() + [] == line.Output();
  }

  // What a kernel answers to show that a step is not safe: it is greedy, or it takes nothing yet.
  function Telling(op: Op, backlog: bool, payload: seq<byte>): seq<Answer> {
    match op
    case SendCorked(_) => Greedy(|payload|)
    case Send(data, _) => if backlog || |data| <= 1 then [] else Greedy(|data|)
    case _ => []
  }

  lemma TellingStep(line: Line, op: Op)
    requires line.net.open && !Safe(op, line.net.queued != [], line.payload)
    requires line.net.answers == Telling(op, line.net.queued != [], line.payload)
    ensures !Kept(line, op)
  {
    hide Modest, SentImmediate, PolledOut;
    var net := line.net;
    match op
    case SendCorked(junk) =>
      JunkOnTheWire(net, line.payload, junk);
      assert |Step(line, op).Output()| > |line.Output() + []|;
    case Send(data, junk) =>
      if net.queued == [] && |data| > 1 {
        JunkOnTheWire(net, data, junk);
        assert |Step(line, op).Output()| > |line.Output() + data|;
      } else {
        TakesNothing(net, data, junk);
        SentPastPayload(net.Output(), line.payload, data);
        assert line.Output() + data == net.Output() + line.payload + data;
      }
  }

  lemma TakesNothing(net: Net, data: seq<byte>, junk: nat -> byte)
    requires net.open && net.answers == []
    ensures SentNet(net, data, junk).open && SentNet(net, data, junk).Output() == net.Output() + data
  {}

  /** Whatever the kernel answers, a step adds its data to the output's end or closes, if and only if it is safe. */
  lemma StepInOrder(line: Line, op: Op)
    requires line.net.open
    ensures (forall answers :: Kept(line.Over(answers), op)) <==> Safe(op, line.net.queued != [], line.payload)
  {
    hide Kept, Safe;
    if Safe(op, line.net.queued != [], line.payload) {
      forall answers ensures Kept(line.Over(answers), op) {
        SafeStep(line.Over(answers), op);
      }
    } else {
      TellingStep(line.Over(Telling(op, line.net.queued != [], line.payload)), op);
    }
  }

  // ---------------------------------------------------------------- what a caller knows

  // The payload, and whether something has been flushed since the last send: then the queue is not empty.
  datatype Ledger = Ledger(payload: seq<byte>, backlog: bool)
  {
    function After(op: Op): Ledger {
      match op
      case Cork(data) =>
        if |payload| + |data| <= CAPACITY then Ledger(payload + data, backlog)
        else Ledger(if |data| > CAPACITY then [] else data, true)
      case SendCorked(_) => Ledger([], false)
      case _ => Ledger(payload, false)
    }
  }

  function Account(line: Line, ops: seq<Op>): Ledger {
    if ops == [] then Ledger(line.payload, line.net.queued != [])
    else Account(line, ops[..|ops| - 1]).After(ops[|ops| - 1])
  }

  // Every step is safe by what the caller has written and sent so far.
  predicate AllSafe(line: Line, ops: seq<Op>) {
    ops == [] ||
    var before := ops[..|ops| - 1];
    AllSafe(line, before) && Safe(ops[|ops| - 1], Account(line, before).backlog, Account(line, before).payload)
  }

  lemma {:induction false} AccountHolds(line: Line, ops: seq<Op>, answers: seq<Answer>)
    ensures var after, ledger := Run(line.Over(answers), ops), Account(line, ops);
            after.payload == ledger.payload && (ledger.backlog ==> after.net.queued != [])
  {
    hide SentNet, PolledOut;
    if ops != [] { AccountHolds(line, ops[..|ops| - 1], answers); }
  }

  // ---------------------------------------------------------------- whole runs

  // While the connection is open, everything written is on its way, in order.
  predicate Conserved(line: Line, ops: seq<Op>) {
    Run(line, ops).net.open ==> Run(line, ops).Output() == line.Output() + Written(ops)
  }

  lemma ClosedStaysClosed(line: Line, op: Op)
    requires !line.net.open
    ensures !Step(line, op).net.open && Step(line, op).net.wire == line.net.wire
  {}

  lemma ConservedStep(line: Line, before: seq<Op>, op: Op)
    requires Conserved(line, before)
    requires Run(line, before).net.open ==> Kept(Run(line, before), op)
    ensures Conserved(line, before + [op])
  {
    hide Step, Line.Output, Added;
    var ops := before + [op];
    assert ops[..|ops| - 1] == before;
    if !Run(line, before).net.open { ClosedStaysClosed(Run(line, before), op); }
    assert line.Output() + Written(before) + Added(op) == line.Output() + Written(ops);
  }

  lemma {:induction false} SafeRun(line: Line, ops: seq<Op>, answers: seq<Answer>)
    requires AllSafe(line, ops)
    ensures Conserved(line.Over(answers), ops)
  {
    hide Step, Safe, Kept, Line.Output, Added;
    if ops == [] {
      assert line.Over(answers).Output() + [] == line.Over(answers).Output();
    } else {
      var before, op := ops[..|ops| - 1], ops[|ops| - 1];
      var then_ := Run(line.Over(answers), before);
      SafeRun(line, before, answers);
      AccountHolds(line, before, answers);
      SaferWithBacklog(op, Account(line, before).backlog, then_.net.queued != [], then_.payload);
      SafeStep(then_, op);
      ConservedStep(line.Over(answers), before, op);
      assert before + [op] == ops;
    }
  }

  lemma SaferWithBacklog(op: Op, less: bool, more: bool, payload: seq<byte>)
    requires Safe(op, less, payload) && (less ==> more)
    ensures Safe(op, more, payload)
  {}

  lemma {:induction false} SafeBefore(line: Line, ops: seq<Op>, k: nat)
    requires AllSafe(line, ops) && k <= |ops|
    ensures AllSafe(line, ops[..k])
  {
    if k == |ops| {
      assert ops[..k] == ops;
    } else {
      SafeBefore(line, ops[..|ops| - 1], k);
      assert ops[..|ops| - 1][..k] == ops[..k];
    }
  }

  // A kernel that takes all it is offered, so that nothing stays queued but what has been flushed since. An empty send
  // has to be put off.
  function Emptying(ledger: Ledger, op: Op, size: nat): seq<Answer> {
    match op
    case Cork(_) => []
    case SendCorked(_) => if !ledger.backlog && ledger.payload == [] then [Again] else [Took(size)]
    case Send(data, _) => if !ledger.backlog && data == [] then [Again] else [Took(size)]
    case PollOut => if ledger.backlog then [Took(size)] else []
  }

  function EmptyingAll(line: Line, ops: seq<Op>, size: nat): seq<Answer> {
    if ops == [] then []
    else
      var before := ops[..|ops| - 1];
      EmptyingAll(line, before, size) + Emptying(Account(line, before), ops[|ops| - 1], size)
  }

  // The net is open, with these answers to come, and nothing is queued but the backlog.
  predicate Emptied(line: Line, ledger: Ledger, answers: seq<Answer>) {
    && line.net.open && line.net.answers == answers
    && line.payload == ledger.payload && (line.net.queued == [] <==> !ledger.backlog)
  }

  lemma EmptyingStep(line: Line, ledger: Ledger, op: Op, size: nat, answers: seq<Answer>)
    requires Emptied(line, ledger, Emptying(ledger, op, size) + answers)
    requires Safe(op, ledger.backlog, ledger.payload) && |line.Output() + Added(op)| <= size
    ensures Emptied(Step(line, op), ledger.After(op), answers)
  {
    match op
    case Cork(_) => assert [] + answers == answers;
    case SendCorked(junk) => EmptyingSend(line.net, line.payload, junk, size, answers);
    case Send(data, junk) => EmptyingSend(line.net, data, junk, size, answers);
    case PollOut =>
      if ledger.backlog { EmptyingPoll(line.net, size, answers); } else { assert [] + answers == answers; }
  }

  lemma EmptyingPoll(net: Net, size: nat, answers: seq<Answer>)
    requires net.open && net.queued != [] && net.answers == [Took(size)] + answers && |net.queued| <= size
    ensures var after := PolledOut(net); after.open && after.answers == answers && after.queued == []
  {
    assert net.answers[1..] == answers;
  }

  lemma EmptyingSend(net: Net, data: seq<byte>, junk: nat -> byte, size: nat, answers: seq<Answer>)
    requires net.open && |net.queued| + |data| <= size && (net.queued == [] ==> |data| <= 1)
    requires net.answers == [if net.queued == [] && data == [] then Again else Took(size)] + answers
    ensures var after := SentNet(net, data, junk); after.open && after.answers == answers && after.queued == []
  {
    hide PolledOut;
    assert net.answers[1..] == answers;
    if net.queued != [] { EmptyingPoll(net.(queued := net.queued + data), size, answers); }
  }

  lemma {:induction false} EmptyingRun(line: Line, ops: seq<Op>, size: nat, answers: seq<Answer>)
    requires line.net.open && AllSafe(line, ops) && |line.Output() + Written(ops)| <= size
    ensures Emptied(Run(line.Over(EmptyingAll(line, ops, size) + answers), ops), Account(line, ops), answers)
  {
    hide Step, Safe, Emptying, Added;
    if ops == [] {
      assert [] + answers == answers;
    } else {
      var before, op := ops[..|ops| - 1], ops[|ops| - 1];
      var ledger := Account(line, before);
      var rest := Emptying(ledger, op, size) + answers;
      var all := EmptyingAll(line, ops, size) + answers;
      assert all == EmptyingAll(line, before, size) + rest;
      EmptyingRun(line, before, size, rest);
      SafeRun(line, before, all);
      EmptyingStep(Run(line.Over(all), before), ledger, op, size, answers);
    }
  }

  /** Where a step is not safe, some kernel shows it. */
  lemma {:induction false} TellingRun(line: Line, ops: seq<Op>) returns (k: nat, answers: seq<Answer>)
    requires line.net.open && !AllSafe(line, ops)
    ensures k <= |ops| && !Conserved(line.Over(answers), ops[..k])
  {
    hide Step, Safe, Kept, Telling, EmptyingAll, Written;
    var before, op := ops[..|ops| - 1], ops[|ops| - 1];
    if !AllSafe(line, before) {
      k, answers := TellingRun(line, before);
      assert before[..k] == ops[..k];
    } else {
      var ledger, size := Account(line, before), |line.Output() + Written(before)|;
      var telling := Telling(op, ledger.backlog, ledger.payload);
      k, answers := |ops|, EmptyingAll(line, before, size) + telling;
      EmptyingRun(line, before, size, telling);
      SafeRun(line, before, answers);
      TellingStep(Run(line.Over(answers), before), op);
      UnkeptStep(line.Over(answers), before, op);
      assert before + [op] == ops == ops[..k];
    }
  }

  lemma UnkeptStep(line: Line, before: seq<Op>, op: Op)
    requires Conserved(line, before) && Run(line, before).net.open && !Kept(Run(line, before), op)
    ensures !Conserved(line, before + [op])
  {
    hide Step, Line.Output, Added;
    var ops := before + [op];
    assert ops[..|ops| - 1] == before;
    assert line.Output() + Written(before) + Added(op) == line.Output() + Written(ops);
  }

  /**
   * Whatever the kernel answers, output is complete and in order after every step of an open connection, if and only
   * if every step is safe.
   */
  lemma OutputIsConserved(line: Line, ops: seq<Op>)
    requires line.net.open
    ensures (forall answers, k :: 0 <= k <= |ops| ==> Conserved(line.Over(answers), ops[..k])) <==> AllSafe(line, ops)
  {
    hide AllSafe, Conserved;
    if AllSafe(line, ops) {
      forall answers, k | 0 <= k <= |ops| ensures Conserved(line.Over(answers), ops[..k]) {
        SafeBefore(line, ops, k);
        SafeRun(line, ops[..k], answers);
      }
    } else {
      var k, answers := TellingRun(line, ops);
    }
  }

  // ---------------------------------------------------------------- what leaves

  lemma StepSendsOutput(line: Line, op: Op)
    requires Safe(op, line.net.queued != [], line.payload) && (op.Send? ==> line.payload == [])
    ensures Step(line, op).net.wire <= line.Output() + Added(op)
  {
    hide SentNet, Modest, PolledOut;
    match op
    case Cork(data) =>
      CorkedInOrder(line, data);
    case SendCorked(junk) =>
      if line.net.queued == [] { ShortIsModest(line.net, |line.payload|); }
      SentNetInOrder(line.net, line.payload, junk);
    case Send(data, junk) =>
      if line.net.queued == [] { ShortIsModest(line.net, |data|); }
      SentNetInOrder(line.net, data, junk);
    case PollOut =>
      PolledOutKeeps(line.net);
  }

  // No send passes a payload in use.
  predicate NoOvertaking(line: Line, ops: seq<Op>) {
    forall k :: 0 <= k < |ops| && ops[k].Send? ==> Account(line, ops[..k]).payload == []
  }

  const START := Line(Net([], [], true, false, []), [])

  /** Whatever the kernel answers: what has left is the beginning of what was written, even when it closes half-way. */
  lemma {:induction false} WireIsPrefix(ops: seq<Op>, answers: seq<Answer>)
    requires AllSafe(START, ops) && NoOvertaking(START, ops)
    ensures Run(START.Over(answers), ops).net.wire <= Written(ops)
  {
    hide Step, Safe, Line.Output, Added;
    if ops != [] {
      var before, op := ops[..|ops| - 1], ops[|ops| - 1];
      assert forall k :: 0 <= k < |before| ==> before[..k] == ops[..k];
      assert ops[..|before|] == before;
      WireIsPrefix(before, answers);
      var then_ := Run(START.Over(answers), before);
      if then_.net.open {
        SafeRun(START, before, answers);
        StartIsEmpty(answers);
        assert then_.Output() == [] + Written(before) == Written(before);
        AccountHolds(START, before, answers);
        SaferWithBacklog(op, Account(START, before).backlog, then_.net.queued != [], then_.payload);
        StepSendsOutput(then_, op);
      } else {
        ClosedStaysClosed(then_, op);
      }
    }
  }

  lemma StartIsEmpty(answers: seq<Answer>)
    ensures START.Over(answers).Output() == []
  {}

  /** No run ever asks to be polled for output: what is queued waits for the next send. */
  lemma {:induction false} NeverPolledForOutput(line: Line, ops: seq<Op>)
    requires !line.net.pollsOut
    ensures !Run(line, ops).net.pollsOut
  {
    hide SentNet, PolledOut, Corked;
    if ops != [] {
      var before, op := ops[..|ops| - 1], ops[|ops| - 1];
      NeverPolledForOutput(line, before);
      var then_ := Run(line, before);
      match op
      case Cork(data) => CorkedInOrder(then_, data);
      case SendCorked(junk) => SentNetInOrder(then_.net, then_.payload, junk);
      case Send(data, junk) => SentNetInOrder(then_.net, data, junk);
      case PollOut => PolledOutKeeps(then_.net);
    }
  }
}
