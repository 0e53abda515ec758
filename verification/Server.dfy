/** The lives of client connections and their file descriptors in the server's event loop. */
module Server {
  import opened Wrappers

  // A connection, with its descriptor until it is closed.
  datatype Conn = Conn(id: nat, fd: Option<nat>)

  // The descriptors open in the kernel, for the clients and for others, the connections by descriptor, the descriptors
  // to be closed, the connections that the rest of the batch of events is for, and how many there have been.
  datatype State = State(kernel: set<nat>, others: set<nat>, clients: map<nat, Conn>, queue: seq<nat>, batch: seq<nat>,
                         born: nat)
  {
    // The connections that have not been destroyed.
    predicate Alive(id: nat) {
      exists fd :: fd in clients && clients[fd].id == id
    }
  }

  // What the kernel, the clients and the handlers do. A handler may close any connection.
  datatype Event =
    | Wait(ids: seq<nat>)
    | Dispatch
    | Accept(fd: nat)
    | Close(fd: nat)
    | OtherOpens(fd: nat)
    | OtherCloses(fd: nat)
    | EndOfBatch

  // The kernel hands out a descriptor that is not open, and events of open connections only. Others leave the clients'
  // descriptors alone. Everything but waiting happens while a batch is worked off, and cleaning up happens after it.
  predicate Possible(s: State, e: Event) {
    match e
    case Wait(ids) => s.batch == [] && s.queue == []
                      && forall id :: id in ids ==> exists fd :: fd in s.clients && s.clients[fd] == Conn(id, Some(fd))
    case Dispatch => s.batch != []
    case Accept(fd) => fd !in s.kernel
    case Close(fd) => fd in s.clients
    case OtherOpens(fd) => fd !in s.kernel
    case OtherCloses(fd) => fd in s.others
    case EndOfBatch => s.batch == []
  }

  // What must not happen.
  datatype Outcome = Fine(state: State) | DescriptorTaken | DeadReceiver | BadDescriptor

  function Removed(s: State, fd: nat): State {
    s.(kernel := s.kernel - {fd}, clients := s.clients - {fd})
  }

  // Close and destroy what is queued, in order.
  function CleanedUp(s: State): Outcome
    decreases |s.queue|
  {
    if s.queue == [] then Fine(s)
    else if s.queue[0] !in s.kernel then BadDescriptor
    else CleanedUp(Removed(s, s.queue[0]).(queue := s.queue[1..]))
  }

  // Closing a connection again does nothing.
  function Closed(s: State, fd: nat): State
    requires fd in s.clients
  {
    if s.clients[fd].fd.None? then s
    else s.(clients := s.clients[fd := s.clients[fd].(fd := None)], queue := s.queue + [s.clients[fd].fd.value])
  }

  function Accepted(s: State, fd: nat): Outcome {
    if fd in s.clients then DescriptorTaken
    else Fine(s.(kernel := s.kernel + {fd}, clients := s.clients[fd := Conn(s.born, Some(fd))], born := s.born + 1))
  }

  function Step(s: State, e: Event): Outcome
    requires Possible(s, e)
  {
    match e
    case Wait(ids) => Fine(s.(batch := ids))
    case Dispatch =>
      if s.Alive(s.batch[0]) then Fine(s.(batch := s.batch[1..])) else DeadReceiver
    case Accept(fd) => Accepted(s, fd)
    case Close(fd) => Fine(Closed(s, fd))
    case OtherOpens(fd) => Fine(s.(kernel := s.kernel + {fd}, others := s.others + {fd}))
    case OtherCloses(fd) => Fine(s.(kernel := s.kernel - {fd}, others := s.others - {fd}))
    case EndOfBatch => CleanedUp(s)
  }

  predicate Distinct(q: seq<nat>) {
    forall i, j :: 0 <= i < j < |q| ==> q[i] != q[j]
  }

  // Descriptors and connections match.
  predicate Matched(s: State) {
    && s.kernel == s.others + s.clients.Keys
    && s.others !! s.clients.Keys
    && (forall fd :: fd in s.clients ==> s.clients[fd].id < s.born)
    && (forall fd :: fd in s.clients ==> s.clients[fd].fd == (if fd in s.queue then None else Some(fd)))
    && (forall fd :: fd in s.queue ==> fd in s.clients)
    && Distinct(s.queue)
  }

  predicate Inv(s: State) {
    && Matched(s)
    && (forall a, b :: a in s.clients && b in s.clients && s.clients[a].id == s.clients[b].id ==> a == b)
    && (forall id :: id in s.batch ==> s.Alive(id))
  }

  /** Cleaning up closes exactly the queued descriptors, all of them open, and destroys exactly their connections. */
  lemma {:induction false} CleanUpIsExact(s: State)
    requires Matched(s)
    ensures var gone := set fd | fd in s.queue;
            CleanedUp(s) == Fine(s.(kernel := s.kernel - gone, clients := s.clients - gone, queue := []))
    decreases |s.queue|
  {
    if s.queue == [] {
      assert s.clients - {} == s.clients && s.kernel - {} == s.kernel;
    } else {
      var fd, rest := s.queue[0], s.queue[1..];
      var next := Removed(s, fd).(queue := rest);
      QueueTail(s.queue);
      assert next.kernel == next.others + next.clients.Keys;
      CleanUpIsExact(next);
      var gone, later := set f | f in s.queue, set f | f in rest;
      assert gone == {fd} + later;
      assert s.clients - gone == s.clients - {fd} - later;
      assert s.kernel - gone == s.kernel - {fd} - later;
    }
  }

  lemma QueueTail(q: seq<nat>)
    requires q != [] && Distinct(q)
    ensures Distinct(q[1..]) && q[0] !in q[1..]
    ensures forall fd :: fd in q <==> fd == q[0] || fd in q[1..]
  {
    assert q == [q[0]] + q[1..];
  }

  /**
   * Whatever happens, in whatever order: no accepted descriptor is taken, no event reaches a destroyed connection, and
   * no descriptor is closed that is not open.
   */
  lemma StepKeepsInv(s: State, e: Event)
    requires Inv(s) && Possible(s, e)
    ensures Step(s, e).Fine? && Inv(Step(s, e).state)
  {
    match e
    case Wait(ids) =>
    case Dispatch => DispatchKeepsInv(s);
    case Accept(fd) => AcceptKeepsInv(s, fd);
    case Close(fd) => CloseKeepsInv(s, fd);
    case OtherOpens(fd) =>
    case OtherCloses(fd) =>
    case EndOfBatch => CleanUpKeepsInv(s);
  }

  lemma DispatchKeepsInv(s: State)
    requires Inv(s) && s.batch != []
    ensures s.Alive(s.batch[0]) && Inv(s.(batch := s.batch[1..]))
  {
    var t := s.(batch := s.batch[1..]);
    forall id | id in t.batch ensures t.Alive(id) {
      assert s.Alive(id);
    }
  }

  lemma AcceptKeepsInv(s: State, fd: nat)
    requires Inv(s) && fd !in s.kernel
    ensures Accepted(s, fd).Fine? && Inv(Accepted(s, fd).state)
  {
    var t := Accepted(s, fd).state;
    assert t.clients.Keys == s.clients.Keys + {fd};
    forall id | id in t.batch ensures t.Alive(id) {
      assert s.Alive(id);
      var f :| f in s.clients && s.clients[f].id == id;
      assert t.clients[f] == s.clients[f];
    }
  }

  lemma CloseKeepsInv(s: State, fd: nat)
    requires Inv(s) && fd in s.clients
    ensures Inv(Closed(s, fd))
  {
    var t := Closed(s, fd);
    assert t.clients.Keys == s.clients.Keys;
    forall id | id in t.batch ensures t.Alive(id) {
      assert s.Alive(id);
      var f :| f in s.clients && s.clients[f].id == id;
      assert t.clients[f].id == id;
    }
  }

  lemma CleanUpKeepsInv(s: State)
    requires Inv(s) && s.batch == []
    ensures CleanedUp(s).Fine? && Inv(CleanedUp(s).state)
  {
    CleanUpIsExact(s);
    var gone := set fd | fd in s.queue;
    assert gone <= s.clients.Keys;
    assert (s.clients - gone).Keys == s.clients.Keys - gone;
  }

  function Run(s: State, es: seq<Event>): Outcome {
    if es == [] then Fine(s)
    else
      var before := Run(s, es[..|es| - 1]);
      if before.Fine? && Possible(before.state, es[|es| - 1]) then Step(before.state, es[|es| - 1]) else before
  }

  const START := State({}, {}, map[], [], [], 0)

  /** No run of the loop ever goes wrong. */
  lemma {:induction false} LoopIsSafe(es: seq<Event>)
    ensures Run(START, es).Fine? && Inv(Run(START, es).state)
  {
    if es != [] {
      LoopIsSafe(es[..|es| - 1]);
      var s, e := Run(START, es[..|es| - 1]).state, es[|es| - 1];
      if Possible(s, e) { StepKeepsInv(s, e); }
    }
  }

  /** Between batches every connection is open, and the clients' descriptors are the connections': none leaks. */
  lemma NoLeaks(es: seq<Event>)
    ensures var r := Run(START, es + [EndOfBatch]);
            r.Fine? && (Run(START, es).state.batch == [] ==>
                          && r.state.queue == []
                          && r.state.kernel - r.state.others == r.state.clients.Keys
                          && forall fd :: fd in r.state.clients ==> r.state.clients[fd].fd == Some(fd))
  {
    LoopIsSafe(es);
    LoopIsSafe(es + [EndOfBatch]);
    assert (es + [EndOfBatch])[..|es + [EndOfBatch]| - 1] == es;
    var s := Run(START, es).state;
    if s.batch == [] { CleanUpIsExact(s); }
  }

  /** Were a closed connection destroyed before the batch is worked off, an event would reach it destroyed. */
  lemma CleanUpMustWait(s: State, fd: nat)
    requires Inv(s) && fd in s.clients && s.clients[fd].id in s.batch
    ensures var early := CleanedUp(Closed(s, fd));
            early.Fine? && s.clients[fd].id in early.state.batch && !early.state.Alive(s.clients[fd].id)
  {
    var t := Closed(s, fd);
    CloseKeepsInv(s, fd);
    CleanUpIsExact(t);
    assert t.clients[fd].fd == None && t.clients[fd].id == s.clients[fd].id;
    assert fd in t.queue;
  }

  // ---------------------------------------------------------------- what a run comes to

  // Every event of the run can happen when it does.
  predicate PossibleRun(es: seq<Event>) {
    es == [] ||
    var before := Run(START, es[..|es| - 1]);
    PossibleRun(es[..|es| - 1]) && before.Fine? && Possible(before.state, es[|es| - 1])
  }

  // The receivers of all events waited for, in order.
  function WaitedFor(es: seq<Event>): seq<nat> {
    if es == [] then []
    else WaitedFor(es[..|es| - 1]) + match es[|es| - 1] case Wait(ids) => ids case _ => []
  }

  // The receivers that events have gone to.
  function DispatchedTo(es: seq<Event>): seq<nat> {
    if es == [] then []
    else
      var before, r := es[..|es| - 1], Run(START, es[..|es| - 1]);
      DispatchedTo(before)
      + if es[|es| - 1].Dispatch? && r.Fine? && r.state.batch != [] then [r.state.batch[0]] else []
  }

  /** Events go to their receivers in the order of the batches, and what is left of the last batch is still to come. */
  lemma {:induction false} EventsGoInOrder(es: seq<Event>)
    requires PossibleRun(es)
    ensures Run(START, es).Fine? && DispatchedTo(es) + Run(START, es).state.batch == WaitedFor(es)
  {
    hide Inv, Step, Possible;
    LoopIsSafe(es);
    if es != [] {
      var before, e := es[..|es| - 1], es[|es| - 1];
      EventsGoInOrder(before);
      LoopIsSafe(before);
      var s := Run(START, before).state;
      StepKeepsInv(s, e);
      BatchAfter(s, e);
      match e
      case Wait(ids) => assert DispatchedTo(before) + [] == WaitedFor(before);
      case Dispatch => assert s.batch == [s.batch[0]] + s.batch[1..];
      case _ => assert DispatchedTo(before) + [] == DispatchedTo(before);
    }
  }

  lemma BatchAfter(s: State, e: Event)
    requires Possible(s, e) && Step(s, e).Fine? && Inv(s)
    ensures e.Wait? ==> s.batch == []
    ensures e.Dispatch? ==> s.batch != []
    ensures Step(s, e).state.batch == match e case Wait(ids) => ids case Dispatch => s.batch[1..] case _ => s.batch
  {
    hide Inv;
    if e.EndOfBatch? {
      InvMatches(s);
      CleanUpIsExact(s);
    }
  }

  /** When a batch ends, all its events, and all before, have gone to their receivers. */
  lemma BatchesAreWorkedOff(es: seq<Event>)
    requires PossibleRun(es + [EndOfBatch])
    ensures DispatchedTo(es) == WaitedFor(es)
  {
    hide Run, WaitedFor, DispatchedTo, Inv, Step;
    assert (es + [EndOfBatch])[..|es|] == es;
    EventsGoInOrder(es);
  }

  // The descriptors that are clients', and those of them to be closed, by the events alone.
  function Clients(es: seq<Event>): set<nat> {
    if es == [] then {}
    else
      var before := es[..|es| - 1];
      match es[|es| - 1]
      case Accept(fd) => Clients(before) + {fd}
      case EndOfBatch => Clients(before) - Closing(before)
      case _ => Clients(before)
  }

  function Closing(es: seq<Event>): set<nat> {
    if es == [] then {}
    else
      match es[|es| - 1]
      case Close(fd) => Closing(es[..|es| - 1]) + {fd}
      case EndOfBatch => {}
      case _ => Closing(es[..|es| - 1])
  }

  function Others(es: seq<Event>): set<nat> {
    if es == [] then {}
    else
      match es[|es| - 1]
      case OtherOpens(fd) => Others(es[..|es| - 1]) + {fd}
      case OtherCloses(fd) => Others(es[..|es| - 1]) - {fd}
      case _ => Others(es[..|es| - 1])
  }

  // The state of descriptors and connections that events lead to.
  ghost predicate Follows(s: State, clients: set<nat>, closing: set<nat>, others: set<nat>) {
    && s.clients.Keys == clients && s.kernel == clients + others && clients !! others && closing <= clients
    && (forall fd :: fd in s.queue <==> fd in closing)
    && (forall fd :: fd in clients ==> s.clients[fd].fd == if fd in closing then None else Some(fd))
  }

  /**
   * A descriptor is open, and a client's with its connection, from when it is accepted until the first batch that ends
   * after its connection is closed.
   */
  lemma {:induction false} DescriptorsLive(es: seq<Event>)
    requires PossibleRun(es)
    ensures Run(START, es).Fine? && Follows(Run(START, es).state, Clients(es), Closing(es), Others(es))
  {
    hide Inv, Follows, Step, Possible;
    LoopIsSafe(es);
    if es == [] {
      NothingFollows();
    } else {
      var before, e := es[..|es| - 1], es[|es| - 1];
      LoopIsSafe(before);
      DescriptorsLive(before);
      FollowsStep(Run(START, before).state, e, Clients(before), Closing(before), Others(before));
    }
  }

  lemma NothingFollows()
    ensures Follows(START, {}, {}, {})
  {}

  lemma FollowsStep(s: State, e: Event, clients: set<nat>, closing: set<nat>, others: set<nat>)
    requires Inv(s) && Possible(s, e) && Follows(s, clients, closing, others) && Step(s, e).Fine?
    ensures Follows(Step(s, e).state,
                    match e case Accept(fd) => clients + {fd} case EndOfBatch => clients - closing case _ => clients,
                    match e case Close(fd) => closing + {fd} case EndOfBatch => {} case _ => closing,
                    match e case OtherOpens(fd) => others + {fd} case OtherCloses(fd) => others - {fd} case _ => others)
  {
    match e
    case Wait(_) =>
    case Dispatch =>
    case Accept(fd) => AcceptFollows(s, fd, clients, closing, others);
    case Close(fd) => CloseFollows(s, fd, clients, closing, others);
    case OtherOpens(fd) =>
    case OtherCloses(fd) =>
    case EndOfBatch => CleanUpFollows(s, clients, closing, others);
  }

  lemma AcceptFollows(s: State, fd: nat, clients: set<nat>, closing: set<nat>, others: set<nat>)
    requires fd !in s.kernel && Follows(s, clients, closing, others)
    ensures Accepted(s, fd).Fine? && Follows(Accepted(s, fd).state, clients + {fd}, closing, others)
  {
    assert Accepted(s, fd).state.clients.Keys == clients + {fd};
  }

  lemma CloseFollows(s: State, fd: nat, clients: set<nat>, closing: set<nat>, others: set<nat>)
    requires fd in s.clients && Follows(s, clients, closing, others)
    ensures Follows(Closed(s, fd), clients, closing + {fd}, others)
  {
    assert Closed(s, fd).clients.Keys == clients;
  }

  lemma CleanUpFollows(s: State, clients: set<nat>, closing: set<nat>, others: set<nat>)
    requires Matched(s) && Follows(s, clients, closing, others)
    ensures CleanedUp(s).Fine? && Follows(CleanedUp(s).state, clients - closing, {}, others)
  {
    CleanUpIsExact(s);
    hide Matched;
    var gone := set fd | fd in s.queue;
    assert gone == closing;
    assert s.kernel - gone == (clients - closing) + others;
    assert (s.clients - gone).Keys == clients - closing;
  }

  // ---------------------------------------------------------------- the server object

  type Descriptor = fd: int | -1 <= fd

  class Connection {
    const id: nat
    // -1 once closed.
    var fd: Descriptor

    constructor (id: nat, fd: nat)
      ensures this.id == id && this.fd == fd
    {
      this.id := id;
      this.fd := fd;
    }

    function View(): Conn
      reads this
    {
      Conn(id, if fd < 0 then None else Some(fd))
    }
  }

  class Server {
    var clients: map<nat, Connection>
    var removeClients: seq<nat>
    var born: nat
    // What is left of the batch of events.
    var batch: seq<nat>
    // The kernel's descriptors, and those among them that are not the clients'.
    var kernel: set<nat>
    var others: set<nat>

    constructor ()
      ensures View() == START
    {
      clients, removeClients, born, batch, kernel, others := map[], [], 0, [], {}, {};
    }

    ghost function View(): State
      reads this, clients.Values
    {
      State(kernel, others, map fd | fd in clients :: clients[fd].View(), removeClients, batch, born)
    }

    // Returns true for the exception.
    method Accept(clientFd: nat) returns (thrown: bool)
      modifies this
      ensures thrown ==> Accepted(old(View()), clientFd) == DescriptorTaken
      ensures !thrown ==> Accepted(old(View()), clientFd) == Fine(View())
      ensures !thrown ==>
                && clientFd in clients && fresh(clients[clientFd])
                && clients.Values <= old(clients.Values) + {clients[clientFd]}
    {
      if clientFd in clients {
        return true;
      }
      var connection := new Connection(born, clientFd);
      kernel := kernel + {clientFd};
      clients := clients[clientFd := connection];
      born := born + 1;
      assert View().clients == old(View().clients)[clientFd := connection.View()];
      return false;
    }

    method Close(connection: Connection, ghost key: nat)
      requires key in clients && clients[key] == connection && Inv(View())
      modifies this`removeClients, connection
      ensures View() == Closed(old(View()), key)
    {
      if connection.fd == -1 {
        return;
      }
      RemoveConnection(connection.fd);
      connection.fd := -1;
    }

    method RemoveConnection(fd: nat)
      modifies this`removeClients
      ensures removeClients == old(removeClients) + [fd]
    {
      removeClients := removeClients + [fd];
    }

    method RemoveDeadClients()
      requires Matched(View())
      modifies this`removeClients, this`kernel, this`clients
      ensures Fine(View()) == CleanedUp(old(View()))
      ensures clients.Values <= old(clients.Values)
    {
      hide Matched;
      CleanUpIsExact(View());
      while removeClients != []
        invariant CleanedUp(View()) == CleanedUp(old(View())) && CleanedUp(View()).Fine?
        invariant clients.Values <= old(clients.Values)
        decreases |removeClients|
      {
        ghost var before := View();
        var fd := removeClients[0];
        kernel := kernel - {fd};
        clients := clients - {fd};
        removeClients := removeClients[1..];
        assert View().clients == before.clients - {fd};
        assert View() == Removed(before, fd).(queue := before.queue[1..]);
      }
    }

    // One event of the kernel's, of a handler's or of others'.
    method Perform(e: Event)
      requires Inv(View()) && Possible(View(), e)
      modifies this, clients.Values
      ensures Fine(View()) == Step(old(View()), e)
      ensures forall c :: c in clients.Values ==> c in old(clients.Values) || fresh(c)
    {
      hide Inv, CleanedUp, Closed, Accepted;
      StepKeepsInv(View(), e);
      match e
      case Wait(ids) =>
        batch := ids;
      case Dispatch =>
        batch := batch[1..];
      case Accept(fd) =>
        var thrown := Accept(fd);
      case Close(fd) =>
        Close(clients[fd], fd);
      case OtherOpens(fd) =>
        kernel, others := kernel + {fd}, others + {fd};
      case OtherCloses(fd) =>
        kernel, others := kernel - {fd}, others - {fd};
      case EndOfBatch =>
        InvMatches(View());
        RemoveDeadClients();
    }

    // A whole run of the loop.
    method Loop(es: seq<Event>)
      requires View() == START && clients.Values == {}
      requires forall k :: 0 <= k < |es| ==> Run(START, es[..k]).Fine? && Possible(Run(START, es[..k]).state, es[k])
      modifies this
      ensures Fine(View()) == Run(START, es)
    {
      hide Inv, Step, Possible;
      for i := 0 to |es|
        invariant Fine(View()) == Run(START, es[..i])
        invariant forall c :: c in clients.Values ==> fresh(c)
      {
        LoopIsSafe(es[..i]);
        assert es[..i + 1][..i] == es[..i];
        Perform(es[i]);
      }
      assert es[..|es|] == es;
    }
  }

  lemma InvMatches(s: State)
    requires Inv(s)
    ensures Matched(s)
  {}
}
