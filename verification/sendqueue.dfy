/**
 The send queue of an RTP socket (rtpcommsend.cpp): an active object that hands one datagram at a
 time to the socket, completes the clients' requests, and drops what is queued on errors and
 cancels.
 */
module SendQueue {
  import opened Octets

  const KErrNone := 0
  const KErrCancel := -3
  const KErrInUse := -14
  const KErrDisconnected := -36
  const KErrAbort := -39

  datatype WriteState = ESending | EWaiting | ECommsFailed

  /** A queued packet: the number of the Send call that queued it, and whether a client waits for it. */
  datatype Item = Item(ticket: nat, data: Bytes, client: bool)

  /** User::RequestComplete on the client's request. */
  datatype Completion = Completion(ticket: nat, reason: int)

  /**
   The object's state and its effects: what clients were told, what the socket was given, what
   errors were notified.
   */
  datatype State = State(
    queue: seq<Item>, status: WriteState, active: bool,
    completed: seq<Completion>, socket: seq<Item>, notified: seq<int>)

  const IDLE := State([], EWaiting, false, [], [], [])

  function AnswerOf(item: Item, reason: int): seq<Completion> {
    if item.client then [Completion(item.ticket, reason)] else []
  }

  /** What the clients of queued packets are told, in queue order. */
  function Answers(queue: seq<Item>, reason: int): seq<Completion> {
    if queue == [] then [] else AnswerOf(queue[0], reason) + Answers(queue[1..], reason)
  }

  function Purged(s: State, reason: int): State {
    s.(queue := [], completed := s.completed + Answers(s.queue, reason))
  }

  function Started(s: State): State {
    if s.queue == [] then s.(status := EWaiting)
    else s.(status := ESending, active := true, socket := s.socket + [s.queue[0]])
  }

  function Queued(s: State, item: Item): State {
    var t := s.(queue := s.queue + [item]);
    if s.active then t else Started(t)
  }

  // ----- Events -----

  /** alloc is KErrNone or the error of queueing the packet. */
  datatype Event =
    | SendAsync(data: Bytes, alloc: int)
    | SendSync(data: Bytes, alloc: int)
    | Done(result: int)
    | CancelSends
    | CancelObject
    | Destroy

  function Next(s: State, ticket: nat, e: Event): State
    requires e.Done? ==> s.active
  {
    match e
    case SendAsync(data, alloc) =>
      if alloc == KErrNone then Queued(s, Item(ticket, data, true))
      else
        var t := Purged(s.(completed := s.completed + [Completion(ticket, alloc)]), alloc);
        t.(notified := t.notified + [alloc])
    case SendSync(data, alloc) =>
      if s.status == ECommsFailed then s
      else if alloc == KErrNone then Queued(s, Item(ticket, data, false))
      else Purged(s, alloc)
    case Done(result) =>
      var idle := s.(active := false);
      if result != KErrNone then
        var t := if result == KErrCancel then idle else Purged(idle, result);
        t.(notified := t.notified + [result])
      else
        var t := if s.queue == [] then idle
                 else idle.(queue := s.queue[1..], completed := s.completed + Answers(s.queue[..1], KErrNone));
        if s.status == ESending then Started(t) else t
    case CancelSends => Purged(s, KErrCancel)
    case CancelObject => if s.active then Purged(s, KErrCancel).(active := false) else s
    case Destroy =>
      Purged(if s.active then Purged(s, KErrCancel).(active := false) else s, KErrAbort)
  }

  // ----- The object -----

  lemma AnswersOfFirst(queue: seq<Item>, reason: int)
    requires queue != []
    ensures Answers(queue, reason) == Answers(queue[..1], reason) + Answers(queue[1..], reason)
  {
    assert queue[..1][1..] == [];
  }

  lemma NobodyAnswered(reason: int)
    ensures Answers([], reason) == []
  {
  }

  class CommSend {
    var iSendQue: seq<Item>
    var iWriteStatus: WriteState
    var isActive: bool
    var completed: seq<Completion>
    var socket: seq<Item>
    var notified: seq<int>

    function AsState(): State
      reads this
    {
      State(iSendQue, iWriteStatus, isActive, completed, socket, notified)
    }

    constructor ()
      ensures AsState() == IDLE
    {
      iSendQue, iWriteStatus, isActive := [], EWaiting, false;
      completed, socket, notified := [], [], [];
    }

    method CompleteClientRequest(item: Item, reason: int)
      modifies this`completed
      ensures completed == old(completed) + Answers([item], reason)
    {
      assert [item][1..] == [];
      if item.client {
        completed := completed + [Completion(item.ticket, reason)];
      }
    }

    method CompleteAndRemoveRequests(error: int)
      modifies this`completed, this`iSendQue
      ensures AsState() == Purged(old(AsState()), error)
    {
      hide Answers;
      NobodyAnswered(error);
      while iSendQue != []
        invariant completed + Answers(iSendQue, error) == old(completed) + Answers(old(iSendQue), error)
        decreases |iSendQue|
      {
        AnswersOfFirst(iSendQue, error);
        assert iSendQue[..1] == [iSendQue[0]];
        Grouped(completed, Answers(iSendQue[..1], error), Answers(iSendQue[1..], error));
        CompleteClientRequest(iSendQue[0], error);
        iSendQue := iSendQue[1..];
      }
    }

    method RemoveFromQueue()
      modifies this`completed, this`iSendQue
      ensures old(iSendQue) == [] ==> AsState() == old(AsState())
      ensures old(iSendQue) != [] ==>
                AsState() == old(AsState()).(queue := old(iSendQue)[1..],
                                             completed := old(completed) + Answers(old(iSendQue)[..1], KErrNone))
    {
      if iSendQue != [] {
        assert iSendQue[..1] == [iSendQue[0]];
        CompleteClientRequest(iSendQue[0], KErrNone);
        iSendQue := iSendQue[1..];
      }
    }

    method SendNextPacket()
      modifies this`iWriteStatus, this`isActive, this`socket
      ensures AsState() == Started(old(AsState()))
    {
      iWriteStatus := EWaiting;
      if iSendQue != [] {
        socket := socket + [iSendQue[0]];
        isActive := true;
        iWriteStatus := ESending;
      }
    }

    /** Send with a client status; ticket stands for that status. */
    method SendAsync(data: Bytes, alloc: int, ticket: nat)
      modifies this
      ensures AsState() == Next(old(AsState()), ticket, Event.SendAsync(data, alloc))
    {
      hide Answers;
      if alloc == KErrNone {
        iSendQue := iSendQue + [Item(ticket, data, true)];
        if !isActive {
          SendNextPacket();
        }
      } else {
        completed := completed + [Completion(ticket, alloc)];
        CompleteAndRemoveRequests(alloc);
        notified := notified + [alloc];
      }
    }

    /** Send without one. */
    method SendSync(data: Bytes, alloc: int, ticket: nat) returns (r: int)
      modifies this
      ensures AsState() == Next(old(AsState()), ticket, Event.SendSync(data, alloc))
      ensures r == if old(iWriteStatus) == ECommsFailed then KErrDisconnected else alloc
    {
      hide Answers;
      if iWriteStatus != EWaiting && iWriteStatus != ESending {
        return KErrDisconnected;
      }
      if alloc != KErrNone {
        CompleteAndRemoveRequests(alloc);
        return alloc;
      }
      iSendQue := iSendQue + [Item(ticket, data, false)];
      if !isActive {
        SendNextPacket();
      }
      return alloc;
    }

    /** RunL, called by the scheduler for a completed request; false stands for leaving with KErrInUse. */
    method RunL(result: int) returns (ok: bool)
      requires isActive
      modifies this
      ensures AsState() == Next(old(AsState()), 0, Done(result))
      ensures ok <==> result != KErrNone || old(iWriteStatus) == ESending
    {
      hide Answers;
      isActive := false;
      if result == KErrNone {
        RemoveFromQueue();
        if iWriteStatus == ESending {
          SendNextPacket();
        } else {
          return false;
        }
      } else {
        if result != KErrCancel {
          CompleteAndRemoveRequests(result);
        }
        notified := notified + [result];
      }
      return true;
    }

    method CancelAsyncSend()
      modifies this
      ensures AsState() == Next(old(AsState()), 0, CancelSends)
    {
      hide Answers;
      CompleteAndRemoveRequests(KErrCancel);
    }

    /** CActive::Cancel: DoCancel, then wait for the outstanding request without running RunL. */
    method Cancel()
      modifies this
      ensures AsState() == Next(old(AsState()), 0, CancelObject)
    {
      hide Answers;
      if isActive {
        CancelAsyncSend();
        isActive := false;
      }
    }

    /** The destructor. */
    method Delete()
      modifies this
      ensures AsState() == Next(old(AsState()), 0, Destroy)
    {
      hide Answers;
      Cancel();
      CompleteAndRemoveRequests(KErrAbort);
    }
  }

  // ----- What is told -----

  /** The reason an event gives to those it answers. */
  function ReasonOf(s: State, e: Event): int {
    match e
    case SendAsync(_, alloc) => alloc
    case SendSync(_, alloc) => alloc
    case Done(result) => result
    case CancelSends => KErrCancel
    case CancelObject => KErrCancel
    case Destroy => if s.active then KErrCancel else KErrAbort
  }

  /** The answers of the second state begin with those of the first, and all the others give one reason. */
  predicate Tells(s: State, t: State, reason: int) {
    && |s.completed| <= |t.completed| && t.completed[..|s.completed|] == s.completed
    && forall k | |s.completed| <= k < |t.completed| :: t.completed[k].reason == reason
  }

  lemma {:induction false} AnswersSay(queue: seq<Item>, reason: int)
    ensures forall k | 0 <= k < |Answers(queue, reason)| :: Answers(queue, reason)[k].reason == reason
  {
    if queue != [] {
      AnswersSay(queue[1..], reason);
    }
  }

  lemma PurgeTells(s: State, reason: int)
    ensures Tells(s, Purged(s, reason), reason)
  {
    hide Answers;
    AnswersSay(s.queue, reason);
  }

  /**
   One event: every client answered is told the result of the socket, the error of queueing, or the kind of
   cancel, and the error is notified exactly when the socket or an asynchronous Send fails.
   */
  lemma TellsReason(s: State, ticket: nat, e: Event)
    requires e.Done? ==> s.active
    ensures Tells(s, Next(s, ticket, e), ReasonOf(s, e))
    ensures Next(s, ticket, e).notified ==
            s.notified + if (e.Done? && e.result != KErrNone) || (e.SendAsync? && e.alloc != KErrNone)
                         then [ReasonOf(s, e)] else []
    ensures (e.SendAsync? || e.SendSync?) && ReasonOf(s, e) == KErrNone ==> Next(s, ticket, e).completed == s.completed
  {
    hide Answers;
    match e
    case SendAsync(_, alloc) => PurgeTells(s.(completed := s.completed + [Completion(ticket, alloc)]), alloc);
    case SendSync(_, alloc) => PurgeTells(s, alloc);
    case Done(result) =>
      PurgeTells(s.(active := false), result);
      AnswersSay(if s.queue == [] then [] else s.queue[..1], KErrNone);
    case CancelSends => PurgeTells(s, KErrCancel);
    case CancelObject => PurgeTells(s, KErrCancel);
    case Destroy => DestroyTells(s, ticket);
  }

  /** Destroying an active object tells the clients of the cancel; nobody is left for the second purge. */
  lemma DestroyTells(s: State, ticket: nat)
    ensures Tells(s, Next(s, ticket, Destroy), ReasonOf(s, Destroy))
  {
    hide Answers;
    if s.active {
      PurgeTells(s, KErrCancel);
      NobodyAnswered(KErrAbort);
    } else {
      PurgeTells(s, KErrAbort);
    }
  }

  // ----- Runs -----

  /**
   The queue among its clients.  submitted counts the Send calls, asked lists those with a client
   status; stale holds while the request at the socket belongs to a packet purged from the queue.
   */
  datatype System = System(state: State, submitted: nat, asked: seq<nat>, stale: bool)

  const START := System(IDLE, 0, [], false)

  predicate Enabled(s: System, e: Event) { e.Done? ==> s.state.active }

  predicate Purges(s: System, e: Event) {
    || e.CancelSends?
    || (e.SendAsync? && e.alloc != KErrNone)
    || (e.SendSync? && e.alloc != KErrNone && s.state.status != ECommsFailed)
  }

  function Step(s: System, e: Event): System
    requires Enabled(s, e)
  {
    System(
      Next(s.state, s.submitted, e),
      if e.SendAsync? || e.SendSync? then s.submitted + 1 else s.submitted,
      if e.SendAsync? then s.asked + [s.submitted] else s.asked,
      if e.Done? || e.CancelObject? || e.Destroy? then false
      else if Purges(s, e) then s.state.active
      else s.stale)
  }

  /** Any sequence of events; a completion without a request at the socket does nothing. */
  function Run(events: seq<Event>): System {
    if events == [] then START
    else
      var s, e := Run(events[..|events| - 1]), events[|events| - 1];
      if Enabled(s, e) then Step(s, e) else s
  }

  // ----- Who is told what -----

  /** The k-th answer was given by event n, with its reason. */
  predicate GivenBy(events: seq<Event>, k: nat, n: nat)
    requires n < |events| && k < |Run(events).state.completed|
  {
    var s := Run(events[..n]).state;
    && Enabled(Run(events[..n]), events[n])
    && |s.completed| <= k < |Run(events[..n + 1]).state.completed|
    && Run(events).state.completed[k].reason == ReasonOf(s, events[n])
  }

  /** In every run each answer was given by one event, with the reason of that event; a client is told KErrNone only
      when the socket has completed a request with KErrNone. */
  lemma {:induction false} AnswersHaveReasons(events: seq<Event>, k: nat)
    requires k < |Run(events).state.completed|
    ensures exists n :: 0 <= n < |events| && GivenBy(events, k, n)
    ensures Run(events).state.completed[k].reason == KErrNone ==>
              exists n :: 0 <= n < |events| && events[n] == Done(KErrNone) && GivenBy(events, k, n)
    decreases |events|
  {
    hide Next, Tells;
    if events != [] {
      var before, last := |events| - 1, events[|events| - 1];
      var s := Run(events[..before]);
      assert events[..|events|] == events;
      if Enabled(s, last) {
        TellsReason(s.state, s.submitted, last);
        ToldBefore(s.state, Run(events).state, ReasonOf(s.state, last), k);
      }
      if k < |s.state.completed| {
        AnswersHaveReasons(events[..before], k);
        var n :| 0 <= n < before && GivenBy(events[..before], k, n)
                 && (s.state.completed[k].reason == KErrNone ==> events[n] == Done(KErrNone));
        StillGiven(events, k, n);
      } else {
        assert GivenBy(events, k, before);
      }
    }
  }

  lemma ToldBefore(s: State, t: State, reason: int, k: nat)
    requires Tells(s, t, reason) && k < |t.completed|
    ensures if k < |s.completed| then t.completed[k] == s.completed[k] else t.completed[k].reason == reason
  {
    if k < |s.completed| {
      assert t.completed[k] == t.completed[..|s.completed|][k];
    }
  }

  lemma StillGiven(events: seq<Event>, k: nat, n: nat)
    requires n < |events| - 1 && k < |Run(events).state.completed| && k < |Run(events[..|events| - 1]).state.completed|
    requires Run(events).state.completed[k] == Run(events[..|events| - 1]).state.completed[k]
    requires GivenBy(events[..|events| - 1], k, n)
    ensures GivenBy(events, k, n)
  {
    hide Run;
    var before := events[..|events| - 1];
    assert before[..n] == events[..n] && before[..n + 1] == events[..n + 1];
  }

  // ----- Every request is answered once -----

  function Tickets(completions: seq<Completion>): seq<nat> {
    if completions == [] then []
    else Tickets(completions[..|completions| - 1]) + [completions[|completions| - 1].ticket]
  }

  /** The tickets of queued packets whose clients wait. */
  function Waiting(queue: seq<Item>): seq<nat> { Tickets(Answers(queue, KErrNone)) }

  lemma {:induction false} TicketsOfConcat(a: seq<Completion>, b: seq<Completion>)
    ensures Tickets(a + b) == Tickets(a) + Tickets(b)
  {
    if b == [] {
      assert a + b == a;
    } else {
      assert (a + b)[..|a + b| - 1] == a + b[..|b| - 1];
      TicketsOfConcat(a, b[..|b| - 1]);
    }
  }

  lemma {:induction false} AnswersOfConcat(a: seq<Item>, b: seq<Item>, reason: int)
    ensures Answers(a + b, reason) == Answers(a, reason) + Answers(b, reason)
  {
    if a == [] {
      assert a + b == b;
    } else {
      hide Answers, AnswerOf;
      AnswersOfConcat(a[1..], b, reason);
      HeadAnswered(a, reason);
      HeadAnswered(a + b, reason);
      assert (a + b)[0] == a[0] && (a + b)[1..] == a[1..] + b;
      Grouped(AnswerOf(a[0], reason), Answers(a[1..], reason), Answers(b, reason));
    }
  }

  lemma Grouped(a: seq<Completion>, b: seq<Completion>, c: seq<Completion>)
    ensures a + (b + c) == a + b + c
  {
  }

  lemma HeadAnswered(queue: seq<Item>, reason: int)
    requires queue != []
    ensures Answers(queue, reason) == AnswerOf(queue[0], reason) + Answers(queue[1..], reason)
  {
  }

  /** Which requests are answered does not depend on the reason. */
  lemma {:induction false} TicketsOfAnswers(queue: seq<Item>, reason: int)
    ensures Tickets(Answers(queue, reason)) == Waiting(queue)
  {
    if queue != [] {
      TicketsOfAnswers(queue[1..], reason);
      var first, plain := AnswerOf(queue[0], reason), AnswerOf(queue[0], KErrNone);
      TicketsOfConcat(first, Answers(queue[1..], reason));
      TicketsOfConcat(plain, Answers(queue[1..], KErrNone));
      assert Tickets(first) == Tickets(plain);
    }
  }

  /** The requests answered so far, then those still waiting. */
  function Accounted(s: State): seq<nat> { Tickets(s.completed) + Waiting(s.queue) }

  lemma PurgeAccounts(s: State, reason: int)
    ensures Accounted(Purged(s, reason)) == Accounted(s)
  {
    TicketsOfConcat(s.completed, Answers(s.queue, reason));
    TicketsOfAnswers(s.queue, reason);
  }

  lemma RemoveAccounts(s: State)
    requires s.queue != []
    ensures Accounted(s.(queue := s.queue[1..], completed := s.completed + Answers(s.queue[..1], KErrNone))) == Accounted(s)
  {
    hide Answers, Tickets;
    AnswersOfFirst(s.queue, KErrNone);
    TicketsOfConcat(s.completed, Answers(s.queue[..1], KErrNone));
    TicketsOfConcat(Answers(s.queue[..1], KErrNone), Answers(s.queue[1..], KErrNone));
  }

  lemma WaitingForOne(queue: seq<Item>, item: Item)
    ensures Waiting(queue + [item]) == Waiting(queue) + if item.client then [item.ticket] else []
  {
    AnswersOfConcat(queue, [item], KErrNone);
    TicketsOfConcat(Answers(queue, KErrNone), Answers([item], KErrNone));
    hide Tickets;
    assert [item][1..] == [];
    if item.client {
      assert Answers([item], KErrNone) == [Completion(item.ticket, KErrNone)];
      TicketsOfOne(Completion(item.ticket, KErrNone));
    } else {
      TicketsOfNone();
    }
  }

  lemma TicketsOfOne(c: Completion)
    ensures Tickets([c]) == [c.ticket]
  {
    assert [c][..0] == [];
  }

  lemma TicketsOfNone()
    ensures Tickets([]) == []
  {
  }

  lemma QueueAccounts(s: State, item: Item)
    ensures Accounted(Queued(s, item)) == Accounted(s) + if item.client then [item.ticket] else []
  {
    hide Answers, Waiting, Tickets;
    WaitingForOne(s.queue, item);
  }

  /** One event: a failed asynchronous Send answers its own request before the older ones. */
  lemma NextAccounts(s: State, ticket: nat, e: Event)
    requires e.Done? ==> s.active
    ensures Accounted(Next(s, ticket, e)) ==
            if !e.SendAsync? then Accounted(s)
            else if e.alloc == KErrNone then Accounted(s) + [ticket]
            else Tickets(s.completed) + [ticket] + Waiting(s.queue)
  {
    hide Answers, Waiting, Tickets, Purged, Queued, Accounted;
    match e
    case SendAsync(data, alloc) =>
      if alloc == KErrNone {
        QueueAccounts(s, Item(ticket, data, true));
      } else {
        FailedSendAccounts(s, ticket, alloc);
      }
    case SendSync(data, alloc) =>
      QueueAccounts(s, Item(ticket, data, false));
      PurgeAccounts(s, alloc);
    case Done(result) => DoneAccounts(s, result);
    case CancelSends => PurgeAccounts(s, KErrCancel);
    case CancelObject => CancelAccounts(s);
    case Destroy =>
      CancelAccounts(s);
      PurgeAccounts(if s.active then Purged(s, KErrCancel).(active := false) else s, KErrAbort);
  }

  lemma FailedSendAccounts(s: State, ticket: nat, alloc: int)
    requires alloc != KErrNone
    ensures forall data :: Accounted(Next(s, ticket, SendAsync(data, alloc))) == Tickets(s.completed) + [ticket] + Waiting(s.queue)
  {
    hide Answers, Waiting;
    var t := s.(completed := s.completed + [Completion(ticket, alloc)]);
    TicketsOfConcat(s.completed, [Completion(ticket, alloc)]);
    PurgeAccounts(t, alloc);
  }

  lemma CancelAccounts(s: State)
    ensures Accounted(if s.active then Purged(s, KErrCancel).(active := false) else s) == Accounted(s)
  {
    hide Answers, Waiting, Tickets;
    PurgeAccounts(s, KErrCancel);
  }

  lemma DoneAccounts(s: State, result: int)
    requires s.active
    ensures Accounted(Next(s, 0, Done(result))) == Accounted(s)
  {
    hide Answers, Waiting, Tickets;
    PurgeAccounts(s.(active := false), result);
    if s.queue != [] {
      RemoveAccounts(s);
    }
  }

  /** Numbers of Send calls handed out so far, each once and in order. */
  predicate Increasing(tickets: seq<nat>, bound: nat) {
    && (forall i, j | 0 <= i < j < |tickets| :: tickets[i] < tickets[j])
    && (forall i | 0 <= i < |tickets| :: tickets[i] < bound)
  }

  lemma MultisetOfThree(a: seq<nat>, b: seq<nat>, c: seq<nat>)
    ensures multiset(a + b + c) == multiset(a) + multiset(b) + multiset(c)
    ensures multiset(a + c) == multiset(a) + multiset(c)
    ensures multiset(a + c + b) == multiset(a) + multiset(c) + multiset(b)
    ensures multiset(a + b) == multiset(a) + multiset(b)
  {
  }

  lemma EmptyAccount()
    ensures Accounted(IDLE) == [] && Tickets([]) == [] && Waiting([]) == []
  {
  }

  ghost predicate Balanced(s: System) {
    multiset(Accounted(s.state)) == multiset(s.asked)
  }

  lemma StepKeepsBalance(s: System, e: Event)
    requires Balanced(s) && Enabled(s, e)
    ensures Balanced(Step(s, e))
  {
    hide Next, Tickets, Waiting, Purges;
    NextAccounts(s.state, s.submitted, e);
    if e.SendAsync? {
      var answered, waiting := Tickets(s.state.completed), Waiting(s.state.queue);
      assert Accounted(s.state) == answered + waiting;
      MultisetOfThree(answered, [s.submitted], waiting);
      MultisetOfThree(s.asked, [s.submitted], []);
    } else {
      hide Accounted;
    }
  }

  lemma {:induction false} RunIsBalanced(events: seq<Event>)
    ensures Balanced(Run(events))
  {
    hide Balanced, Step;
    if events == [] {
      StartIsBalanced();
    } else {
      RunIsBalanced(events[..|events| - 1]);
      var s, e := Run(events[..|events| - 1]), events[|events| - 1];
      if Enabled(s, e) {
        StepKeepsBalance(s, e);
      }
    }
  }

  lemma StartIsBalanced()
    ensures Balanced(START)
  {
    EmptyAccount();
  }

  lemma {:induction false} AskedIncreasing(events: seq<Event>)
    ensures Increasing(Run(events).asked, Run(events).submitted)
  {
    hide Next;
    if events != [] {
      AskedIncreasing(events[..|events| - 1]);
    }
  }

  /**
   In every run of sends, completions, cancels and errors, each request made has been answered
   exactly once or is still waiting in the queue: nothing else is ever answered, and no request
   number is used twice.
   */
  lemma AnsweredOnceOrQueued(events: seq<Event>)
    ensures var s := Run(events);
            && multiset(Tickets(s.state.completed)) + multiset(Waiting(s.state.queue)) == multiset(s.asked)
            && Increasing(s.asked, s.submitted)
  {
    hide Run, Tickets, Waiting;
    RunIsBalanced(events);
    AskedIncreasing(events);
    var s := Run(events).state;
    MultisetOfThree(Tickets(s.completed), [], Waiting(s.queue));
  }

  /** As long as no queueing fails, requests are answered in the order they were made. */
  lemma {:induction false} AnsweredInOrder(events: seq<Event>)
    requires forall k | 0 <= k < |events| :: events[k].SendAsync? ==> events[k].alloc == KErrNone
    ensures var s := Run(events).state; Tickets(s.completed) + Waiting(s.queue) == Run(events).asked
  {
    hide Answers, Waiting, Tickets, Next;
    if events == [] {
      EmptyAccount();
    } else {
      AnsweredInOrder(events[..|events| - 1]);
      var s, e := Run(events[..|events| - 1]), events[|events| - 1];
      if Enabled(s, e) {
        NextAccounts(s.state, s.submitted, e);
      }
    }
  }

  // ----- What is in flight -----

  /** Queued and sent packets carry numbers of Send calls made, the queue in order. */
  ghost predicate Numbered(s: System) {
    && (forall i, j | 0 <= i < j < |s.state.queue| :: s.state.queue[i].ticket < s.state.queue[j].ticket)
    && (forall i | 0 <= i < |s.state.queue| :: s.state.queue[i].ticket < s.submitted)
    && (forall i | 0 <= i < |s.state.socket| :: s.state.socket[i].ticket < s.submitted)
  }

  /** The packet at the socket is the head of the queue, or older than all the queue when stale. */
  ghost predicate Flying(s: System) {
    && s.state.status != ECommsFailed
    && (s.stale ==> s.state.active)
    && (s.state.active ==>
          && s.state.status == ESending && s.state.socket != []
          && var inFlight := s.state.socket[|s.state.socket| - 1];
             if s.stale then forall i | 0 <= i < |s.state.queue| :: inFlight.ticket < s.state.queue[i].ticket
             else s.state.queue != [] && s.state.queue[0] == inFlight)
  }

  lemma QueueingKeepsFlying(s: System, item: Item, t: System)
    requires Numbered(s) && Flying(s) && item.ticket == s.submitted
    requires t.state == Queued(s.state, item) && t.submitted == s.submitted + 1 && t.stale == s.stale
    ensures Numbered(t) && Flying(t)
  {
  }

  lemma SendKeepsFlying(s: System, e: Event)
    requires Numbered(s) && Flying(s) && (e.SendAsync? || e.SendSync?)
    ensures Numbered(Step(s, e)) && Flying(Step(s, e))
  {
    hide Answers, Queued;
    if e.alloc == KErrNone {
      hide Numbered;
      QueueingKeepsFlying(s, Item(s.submitted, e.data, e.SendAsync?), Step(s, e));
    }
  }

  lemma DoneKeepsFlying(s: System, result: int)
    requires Numbered(s) && Flying(s) && s.state.active
    ensures Numbered(Step(s, Done(result))) && Flying(Step(s, Done(result)))
  {
    hide Answers;
  }

  lemma CancelKeepsFlying(s: System, e: Event)
    requires Numbered(s) && Flying(s) && (e.CancelSends? || e.CancelObject? || e.Destroy?)
    ensures Numbered(Step(s, e)) && Flying(Step(s, e))
  {
    hide Answers;
  }

  lemma StepKeepsFlying(s: System, e: Event)
    requires Numbered(s) && Flying(s) && Enabled(s, e)
    ensures Numbered(Step(s, e)) && Flying(Step(s, e))
  {
    hide Numbered, Flying, Step;
    match e
    case SendAsync(_, _) => SendKeepsFlying(s, e);
    case SendSync(_, _) => SendKeepsFlying(s, e);
    case Done(result) => DoneKeepsFlying(s, result);
    case _ => CancelKeepsFlying(s, e);
  }

  lemma {:induction false} RunKeepsFlying(events: seq<Event>)
    ensures Numbered(Run(events)) && Flying(Run(events))
  {
    hide Next, Numbered, Flying;
    if events == [] {
      StartFlies();
    } else {
      RunKeepsFlying(events[..|events| - 1]);
      var s, e := Run(events[..|events| - 1]), events[|events| - 1];
      if Enabled(s, e) {
        StepKeepsFlying(s, e);
      }
    }
  }

  lemma StartFlies()
    ensures Numbered(START) && Flying(START)
  {
  }

  /**
   In every run: a completion always finds the state ESending, so RunL never leaves with "Tx state
   error", and Send never returns KErrDisconnected.  A successful completion answers for the packet
   the socket has sent exactly if no purge came between: after a purge it answers for a packet
   queued later, if there is one.
   */
  lemma CompletionIsForHead(events: seq<Event>)
    ensures var s := Run(events);
            && s.state.status != ECommsFailed
            && (s.state.active ==>
                  && s.state.status == ESending && s.state.socket != []
                  && var inFlight := s.state.socket[|s.state.socket| - 1];
                     (s.state.queue != [] && s.state.queue[0] == inFlight <==> !s.stale))
  {
    RunKeepsFlying(events);
  }

  // ----- What a cancelled socket request does to the queue -----

  /** An idle queue is empty. */
  predicate NoneStranded(s: System) { !s.state.active ==> s.state.queue == [] }

  /** The socket answers KErrCancel while packets are queued. */
  predicate Strands(s: System, e: Event) { Enabled(s, e) && e == Done(KErrCancel) && s.state.queue != [] }

  lemma StepStrands(s: System, e: Event)
    requires Flying(s) && NoneStranded(s) && Enabled(s, e)
    ensures NoneStranded(Step(s, e)) <==> !Strands(s, e)
  {
    hide Answers;
  }

  ghost predicate NeverStranded(events: seq<Event>) {
    forall n | 0 <= n <= |events| :: NoneStranded(Run(events[..n]))
  }

  ghost predicate NothingStrands(events: seq<Event>) {
    forall n | 0 <= n < |events| :: !Strands(Run(events[..n]), events[n])
  }

  /** No packet is ever left in an idle queue exactly if the socket never answers KErrCancel while packets are
      queued. */
  lemma {:induction false} StrandedExactly(events: seq<Event>)
    ensures NeverStranded(events) <==> NothingStrands(events)
  {
    hide Step, NoneStranded, Strands, NeverStranded, NothingStrands, Flying, Numbered;
    if events == [] {
      StartStrandsNothing();
    } else {
      var before := events[..|events| - 1];
      var s, e := Run(before), events[|before|];
      StrandedExactly(before);
      OneMoreStranding(events);
      if NeverStranded(before) {
        RunKeepsFlying(before);
        EndStranding(before);
        StepOrNot(s, e);
      }
    }
  }

  lemma StepOrNot(s: System, e: Event)
    requires Flying(s) && NoneStranded(s)
    ensures NoneStranded(if Enabled(s, e) then Step(s, e) else s) <==> !Strands(s, e)
  {
    hide Step, NoneStranded, Flying;
    if Enabled(s, e) {
      StepStrands(s, e);
    }
  }

  lemma StartStrandsNothing()
    ensures NeverStranded([]) && NothingStrands([])
  {
    assert forall n | 0 <= n <= 0 :: Run([][..n]) == START;
  }

  lemma EndStranding(events: seq<Event>)
    requires NeverStranded(events)
    ensures NoneStranded(Run(events))
  {
    hide Run, NoneStranded;
    assert events[..|events|] == events;
  }

  lemma OneMoreStranding(events: seq<Event>)
    requires events != []
    ensures var before := events[..|events| - 1];
            && (NeverStranded(events) <==> NeverStranded(before) && NoneStranded(Run(events)))
            && (NothingStrands(events) <==> NothingStrands(before) && !Strands(Run(before), events[|before|]))
  {
    hide Run, NoneStranded, Strands;
    var before := events[..|events| - 1];
    assert events[..|events|] == events;
    assert forall n | 0 <= n <= |before| :: events[..n] == before[..n];
  }

  // ----- The order at the socket -----

  /** Packets went to the socket in the order of the Send calls, none twice, and those it has still to be
      given are younger. */
  ghost predicate InOrder(s: System) {
    && (forall i, j | 0 <= i < j < |s.state.socket| :: s.state.socket[i].ticket < s.state.socket[j].ticket)
    && (s.stale || !s.state.active ==>
          forall i, j | 0 <= i < |s.state.socket| && 0 <= j < |s.state.queue| ::
            s.state.socket[i].ticket < s.state.queue[j].ticket)
  }

  /** The socket answers KErrCancel for a packet that is still in the queue. */
  predicate Returns(s: System, e: Event) { Enabled(s, e) && e == Done(KErrCancel) && !s.stale }

  lemma ReturnBreaksOrder(s: System)
    requires Flying(s) && Returns(s, Done(KErrCancel))
    ensures !InOrder(Step(s, Done(KErrCancel)))
  {
    hide Answers;
    var t := Step(s, Done(KErrCancel)).state;
    assert t.socket[|t.socket| - 1].ticket == t.queue[0].ticket && !t.active;
  }

  lemma DoneKeepsOrder(s: System, result: int)
    requires Numbered(s) && Flying(s) && InOrder(s) && s.state.active && !Returns(s, Done(result))
    ensures InOrder(Step(s, Done(result)))
  {
    hide Answers;
  }

  lemma StepKeepsOrder(s: System, e: Event)
    requires Numbered(s) && Flying(s) && InOrder(s) && Enabled(s, e)
    ensures InOrder(Step(s, e)) <==> !Returns(s, e)
  {
    if e.Done? {
      hide Step, InOrder, Flying, Numbered;
      if Returns(s, e) {
        ReturnBreaksOrder(s);
      } else {
        DoneKeepsOrder(s, e.result);
      }
    } else {
      hide Answers;
    }
  }

  ghost predicate AlwaysInOrder(events: seq<Event>) {
    forall n | 0 <= n <= |events| :: InOrder(Run(events[..n]))
  }

  ghost predicate NothingReturns(events: seq<Event>) {
    forall n | 0 <= n < |events| :: !Returns(Run(events[..n]), events[n])
  }

  /** The socket is given the packets in the order of the Send calls, none twice, at all times and with the
      younger ones still to come, exactly if it never answers KErrCancel for a packet still in the queue. */
  lemma {:induction false} SocketOrder(events: seq<Event>)
    ensures AlwaysInOrder(events) <==> NothingReturns(events)
    ensures NothingReturns(events) ==>
              var socket := Run(events).state.socket;
              forall i, j | 0 <= i < j < |socket| :: socket[i].ticket < socket[j].ticket
  {
    hide Step, InOrder, Returns, AlwaysInOrder, NothingReturns, Flying, Numbered;
    if events == [] {
      StartInOrder();
    } else {
      var before := events[..|events| - 1];
      SocketOrder(before);
      OneMoreInOrder(events);
      if AlwaysInOrder(before) {
        RunKeepsFlying(before);
        EndInOrder(before);
        StepInOrder(Run(before), events[|before|]);
      }
    }
    if NothingReturns(events) {
      EndInOrder(events);
      OrderAtSocket(Run(events));
    }
  }

  lemma StepInOrder(s: System, e: Event)
    requires Numbered(s) && Flying(s) && InOrder(s)
    ensures InOrder(if Enabled(s, e) then Step(s, e) else s) <==> !Returns(s, e)
  {
    hide Step, InOrder, Flying, Numbered;
    if Enabled(s, e) {
      StepKeepsOrder(s, e);
    }
  }

  lemma OrderAtSocket(s: System)
    requires InOrder(s)
    ensures forall i, j | 0 <= i < j < |s.state.socket| :: s.state.socket[i].ticket < s.state.socket[j].ticket
  {
  }

  lemma StartInOrder()
    ensures AlwaysInOrder([]) && NothingReturns([])
  {
    assert forall n | 0 <= n <= 0 :: Run([][..n]) == START;
  }

  lemma EndInOrder(events: seq<Event>)
    requires AlwaysInOrder(events)
    ensures InOrder(Run(events))
  {
    hide Run, InOrder;
    assert events[..|events|] == events;
  }

  lemma OneMoreInOrder(events: seq<Event>)
    requires events != []
    ensures var before := events[..|events| - 1];
            && (AlwaysInOrder(events) <==> AlwaysInOrder(before) && InOrder(Run(events)))
            && (NothingReturns(events) <==> NothingReturns(before) && !Returns(Run(before), events[|before|]))
  {
    hide Run, InOrder, Returns;
    var before := events[..|events| - 1];
    assert events[..|events|] == events;
    assert forall n | 0 <= n <= |before| :: events[..n] == before[..n];
  }

  // ----- Runs that show it -----

  lemma LastOfFour(s: System, item: Item)
    requires s.state.queue == [item] && s.state.status == ESending && s.state.active && s.state.completed == []
    ensures var t := Step(s, Done(KErrNone)).state;
            t.completed == Answers([item], KErrNone) && t.socket == s.state.socket && t.queue == []
  {
    assert [item][..1] == [item];
  }

  lemma Extended(events: seq<Event>, e: Event)
    ensures Run(events + [e]) == if Enabled(Run(events), e) then Step(Run(events), e) else Run(events)
  {
    assert (events + [e])[..|events|] == events;
  }

  lemma FourEvents(a: Event, b: Event, c: Event, d: Event)
    ensures [] + [a] == [a] && [a] + [b] == [a, b] && [a, b] + [c] == [a, b, c] && [a, b, c] + [d] == [a, b, c, d]
  {
  }

  /** After a Send, a cancel and another Send: the socket still works on the first packet. */
  lemma CancelledSend(a: Bytes, b: Bytes)
    ensures var s := Run([SendSync(a, KErrNone), CancelSends, SendAsync(b, KErrNone)]);
            s == System(State([Item(1, b, true)], ESending, true, [], [Item(0, a, false)], []), 2, [1], true)
  {
    var first, second := Item(0, a, false), Item(1, b, true);
    assert [first][1..] == [] && [second][1..] == [];
    var s1 := Step(START, SendSync(a, KErrNone));
    assert s1 == System(State([first], ESending, true, [], [first], []), 1, [], false);
    assert Answers([first], KErrCancel) == [];
    var s2 := Step(s1, CancelSends);
    assert s2 == System(State([], ESending, true, [], [first], []), 1, [], true);
    hide Step;
    Extended([], SendSync(a, KErrNone));
    Extended([SendSync(a, KErrNone)], CancelSends);
    Extended([SendSync(a, KErrNone), CancelSends], SendAsync(b, KErrNone));
    FourEvents(SendSync(a, KErrNone), CancelSends, SendAsync(b, KErrNone), Done(KErrNone));
    SecondSend(s2, b);
  }

  lemma SecondSend(s: System, b: Bytes)
    requires s.state.queue == [] && s.state.active
    ensures Step(s, SendAsync(b, KErrNone)) ==
            System(s.state.(queue := [Item(s.submitted, b, true)]), s.submitted + 1, s.asked + [s.submitted], s.stale)
  {
  }

  /** Queueing after a cancel, before the socket answers: if it answers that the first packet was sent, the
      new packet is reported as sent although the socket never had it. */
  lemma AnsweredButNeverSent(a: Bytes, b: Bytes)
    ensures var s := Run([SendSync(a, KErrNone), CancelSends, SendAsync(b, KErrNone), Done(KErrNone)]).state;
            s.completed == [Completion(1, KErrNone)] && s.socket == [Item(0, a, false)] && s.queue == []
  {
    var second := Item(1, b, true);
    assert [second][1..] == [] && Answers([second], KErrNone) == [Completion(1, KErrNone)];
    hide Step, Run, Answers;
    CancelledSend(a, b);
    Extended([SendSync(a, KErrNone), CancelSends, SendAsync(b, KErrNone)], Done(KErrNone));
    FourEvents(SendSync(a, KErrNone), CancelSends, SendAsync(b, KErrNone), Done(KErrNone));
    LastOfFour(Run([SendSync(a, KErrNone), CancelSends, SendAsync(b, KErrNone)]), second);
  }

  /** If it answers that the request was cancelled, the new packet stays in an idle queue, and its client
      waits. */
  lemma StrandedAfterCancel(a: Bytes, b: Bytes)
    ensures var s := Run([SendSync(a, KErrNone), CancelSends, SendAsync(b, KErrNone), Done(KErrCancel)]).state;
            s.queue == [Item(1, b, true)] && !s.active && s.completed == [] && s.socket == [Item(0, a, false)]
  {
    hide Run;
    CancelledSend(a, b);
    Extended([SendSync(a, KErrNone), CancelSends, SendAsync(b, KErrNone)], Done(KErrCancel));
    FourEvents(SendSync(a, KErrNone), CancelSends, SendAsync(b, KErrNone), Done(KErrCancel));
  }

  /** A packet whose request the socket cancels stays in the queue, and the next Send sends it again. */
  lemma SentTwice(a: Bytes, b: Bytes)
    ensures var s := Run([SendSync(a, KErrNone), Done(KErrCancel), SendSync(b, KErrNone)]).state;
            s.socket == [Item(0, a, false), Item(0, a, false)] && s.queue == [Item(0, a, false), Item(1, b, false)]
  {
    var first := Item(0, a, false);
    var s1 := Step(START, SendSync(a, KErrNone));
    assert s1 == System(State([first], ESending, true, [], [first], []), 1, [], false);
    var s2 := Step(s1, Done(KErrCancel));
    assert s2 == System(State([first], ESending, false, [], [first], [KErrCancel]), 1, [], false);
    var s3 := Step(s2, SendSync(b, KErrNone));
    assert s3.state.socket == [first] + [first] && s3.state.queue == [first] + [Item(1, b, false)];
    hide Step;
    Extended([], SendSync(a, KErrNone));
    Extended([SendSync(a, KErrNone)], Done(KErrCancel));
    Extended([SendSync(a, KErrNone), Done(KErrCancel)], SendSync(b, KErrNone));
    FourEvents(SendSync(a, KErrNone), Done(KErrCancel), SendSync(b, KErrNone), Done(KErrNone));
  }
}
