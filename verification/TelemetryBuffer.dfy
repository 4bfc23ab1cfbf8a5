/** The Python agent's telemetry buffer: a trimmed list, flushed by a task that gives up control
    while the request is under way. */
module TelemetryBuffer {
  import opened Numbers

  const MAX_QUEUE: nat := 100

  /** What the request inside `flush` came to. `Raised` covers every exception before a response. */
  datatype Reply = Status(code: int) | Raised

  /** Leaving the client block succeeds, raises, or is cancelled while it waits. */
  datatype Close = Closed | CloseRaised | CloseCancelled

  /** `Cancelled` is cancellation before the response. The handler catches no cancellation. */
  datatype Outcome = Finished(reply: Reply, close: Close) | Cancelled

  function Last<E>(q: seq<E>): seq<E>
  {
    if |q| >= MAX_QUEUE then q[|q| - MAX_QUEUE..] else q
  }

  function Append<E>(q: seq<E>, e: E): seq<E>
  {
    Last(q + [e])
  }

  function QueueAll<E>(q: seq<E>, es: seq<E>): seq<E>
    decreases |es|
  {
    if es == [] then q else Append(QueueAll(q, es[..|es| - 1]), es[|es| - 1])
  }

  predicate Accepted(o: Outcome)
  {
    o.Finished? && o.reply == Status(202)
  }

  /** How often the events are put back: a refused request is handled inside the client block,
      an exception on leaving that block puts them back once more, and a cancellation there takes
      the place of the exception that would have put them back. */
  function Requeues(o: Outcome): nat
  {
    match o
    case Cancelled => 0
    case Finished(Raised, close) => if close.CloseCancelled? then 0 else 1
    case Finished(Status(c), close) => (if c == 202 then 0 else 1) + (if close.CloseRaised? then 1 else 0)
  }

  function Extend<E>(q: seq<E>, events: seq<E>, o: Outcome): seq<E>
  {
    q + (if Requeues(o) >= 1 then events else []) + (if Requeues(o) == 2 then events else [])
  }

  class TelemetrySender<E> {
    var queue: seq<E>

    constructor ()
      ensures queue == []
    {
      queue := [];
    }

    method QueueEvent(event: E)
      modifies this
      ensures queue == Append(old(queue), event)
      ensures 1 <= |queue| <= 100 && queue[|queue| - 1] == event
    {
      queue := queue + [event];
      if |queue| >= MAX_QUEUE {
        queue := queue[|queue| - MAX_QUEUE..];
      }
    }

    /** `flush` up to the request: an empty result means that it returned at once. */
    method BeginFlush() returns (events: seq<E>)
      modifies this
      ensures events == old(queue) && queue == []
    {
      events := queue;
      queue := [];
    }

    /** `flush` after the request, with whatever the other tasks have queued meanwhile. */
    method CompleteFlush(events: seq<E>, outcome: Outcome)
      modifies this
      ensures queue == Extend(old(queue), events, outcome)
    {
      match outcome
      case Cancelled =>
      case Finished(Raised, close) =>
        if !close.CloseCancelled? {
          queue := queue + events;
        }
      case Finished(Status(code), close) =>
        if code != 202 {
          queue := queue + events;
        }
        if close.CloseRaised? {
          queue := queue + events;
        }
    }
  }

  // ----- interleaved runs

  /** `flights` are the flushes whose request is under way. */
  datatype State<E> = State(queue: seq<E>, flights: seq<seq<E>>, accepted: seq<E>, trimmed: seq<E>)

  datatype Op<E> = Queue(event: E) | Begin | Complete(flight: nat, outcome: Outcome)

  function Step<E>(s: State<E>, op: Op<E>): State<E>
  {
    match op
    case Queue(e) =>
      var q := Append(s.queue, e);
      s.(queue := q, trimmed := s.trimmed + (s.queue + [e])[..|s.queue| + 1 - |q|])
    case Begin =>
      if s.queue == [] then s else s.(queue := [], flights := s.flights + [s.queue])
    case Complete(i, o) =>
      if i >= |s.flights| then s
      else
        var events := s.flights[i];
        s.(queue := Extend(s.queue, events, o),
           flights := s.flights[..i] + s.flights[i + 1..],
           accepted := s.accepted + if Accepted(o) then events else [])
  }

  function Run<E>(s: State<E>, ops: seq<Op<E>>): State<E>
    decreases |ops|
  {
    if ops == [] then s else Step(Run(s, ops[..|ops| - 1]), ops[|ops| - 1])
  }

  function InFlight<E>(flights: seq<seq<E>>): multiset<E>
  {
    if flights == [] then multiset{} else multiset(flights[0]) + InFlight(flights[1..])
  }

  /** Every place an event can be. */
  function Ledger<E>(s: State<E>): multiset<E>
  {
    multiset(s.queue) + InFlight(s.flights) + multiset(s.accepted) + multiset(s.trimmed)
  }

  function Queued<E>(op: Op<E>): multiset<E>
  {
    if op.Queue? then multiset{op.event} else multiset{}
  }

  function AllQueued<E>(ops: seq<Op<E>>): multiset<E>
    decreases |ops|
  {
    if ops == [] then multiset{} else AllQueued(ops[..|ops| - 1]) + Queued(ops[|ops| - 1])
  }

  /** The flush got a response and the client did not raise on closing, or the request raised and
      the flush was not cancelled on closing. */
  predicate Clean(o: Outcome)
  {
    match o
    case Cancelled => false
    case Finished(Raised, close) => !close.CloseCancelled?
    case Finished(Status(_), close) => !close.CloseRaised?
  }

  lemma {:induction false} InFlightAppend<E>(a: seq<seq<E>>, b: seq<seq<E>>)
    ensures InFlight(a + b) == InFlight(a) + InFlight(b)
  {
    if a == [] {
      assert a + b == b;
    } else {
      assert (a + b)[1..] == a[1..] + b;
      InFlightAppend(a[1..], b);
    }
  }

  lemma {:induction false} InFlightSplit<E>(flights: seq<seq<E>>, i: nat)
    requires i < |flights|
    ensures InFlight(flights) == InFlight(flights[..i] + flights[i + 1..]) + multiset(flights[i])
  {
    var others := flights[..i] + flights[i + 1..];
    if i == 0 {
      assert others == flights[1..];
    } else {
      InFlightSplit(flights[1..], i - 1);
      assert others[1..] == flights[1..][..i - 1] + flights[1..][i..];
    }
  }

  lemma TrimSplits<E>(q: seq<E>)
    ensures multiset(q) == multiset(q[..|q| - |Last(q)|]) + multiset(Last(q))
  {
    assert q == q[..|q| - |Last(q)|] + Last(q);
  }

  function Copies<E>(n: nat, events: seq<E>): multiset<E>
  {
    if n == 0 then multiset{} else multiset(events) + Copies(n - 1, events)
  }

  /** In how many places a completed flush leaves its events. */
  function Places(o: Outcome): nat
  {
    Requeues(o) + if Accepted(o) then 1 else 0
  }

  /** Everything except flight `i`. */
  function Rest<E>(s: State<E>, i: nat): multiset<E>
    requires i < |s.flights|
  {
    multiset(s.queue) + InFlight(s.flights[..i] + s.flights[i + 1..]) + multiset(s.accepted) + multiset(s.trimmed)
  }

  lemma ExtendCopies<E>(q: seq<E>, events: seq<E>, o: Outcome)
    ensures multiset(Extend(q, events, o)) == multiset(q) + Copies(Requeues(o), events)
  {
    assert Copies(1, events) == multiset(events);
    assert Copies(2, events) == multiset(events) + multiset(events);
  }

  lemma FlightLedger<E>(s: State<E>, i: nat)
    requires i < |s.flights|
    ensures Ledger(s) == Rest(s, i) + multiset(s.flights[i])
  {
    InFlightSplit(s.flights, i);
  }

  lemma AddParts<E>(queue: multiset<E>, again: multiset<E>, flights: multiset<E>,
                    accepted: multiset<E>, now: multiset<E>, trimmed: multiset<E>)
    ensures queue + again + flights + (accepted + now) + trimmed ==
            queue + flights + accepted + trimmed + (now + again)
  {
  }

  lemma AcceptedLedger<E>(s: State<E>, i: nat, o: Outcome)
    requires i < |s.flights| && Accepted(o)
    ensures Ledger(Step(s, Complete(i, o))) == Rest(s, i) + Copies(Places(o), s.flights[i])
  {
    hide InFlight, Extend;
    var events, t := s.flights[i], Step(s, Complete(i, o));
    ExtendCopies(s.queue, events, o);
    assert multiset(t.accepted) == multiset(s.accepted) + multiset(events);
    AddParts(multiset(s.queue), Copies(Requeues(o), events), InFlight(t.flights),
             multiset(s.accepted), multiset(events), multiset(s.trimmed));
  }

  lemma NotAcceptedLedger<E>(s: State<E>, i: nat, o: Outcome)
    requires i < |s.flights| && !Accepted(o)
    ensures Ledger(Step(s, Complete(i, o))) == Rest(s, i) + Copies(Places(o), s.flights[i])
  {
    hide InFlight, Extend;
    var events, t := s.flights[i], Step(s, Complete(i, o));
    ExtendCopies(s.queue, events, o);
    assert t.accepted == s.accepted;
    AddParts(multiset(s.queue), Copies(Requeues(o), events), InFlight(t.flights),
             multiset(s.accepted), multiset{}, multiset(s.trimmed));
  }

  /** A completed flush turns one copy of its events into as many as there are places. */
  lemma CompleteLedger<E>(s: State<E>, i: nat, o: Outcome)
    requires i < |s.flights|
    ensures Ledger(Step(s, Complete(i, o))) == Rest(s, i) + Copies(Places(o), s.flights[i])
  {
    if Accepted(o) {
      AcceptedLedger(s, i, o);
    } else {
      NotAcceptedLedger(s, i, o);
    }
  }

  /** Completing a flush conserves events exactly when its outcome is clean. */
  lemma CompleteConserves<E>(s: State<E>, i: nat, o: Outcome)
    requires i < |s.flights| && s.flights[i] != []
    ensures Ledger(Step(s, Complete(i, o))) == Ledger(s) <==> Clean(o)
  {
    hide Ledger, Step, Rest;
    var events := s.flights[i];
    FlightLedger(s, i);
    CompleteLedger(s, i, o);
    assert Places(o) == 1 <==> Clean(o);
    assert Copies(1, events) == multiset(events);
    if Places(o) == 0 {
      assert |Rest(s, i) + Copies(0, events)| == |Rest(s, i)|;
      assert |Rest(s, i) + multiset(events)| == |Rest(s, i)| + |events|;
    } else if Places(o) == 2 {
      assert Copies(2, events) == multiset(events) + multiset(events);
      assert |Rest(s, i) + Copies(2, events)| == |Rest(s, i)| + |events| + |events|;
      assert |Rest(s, i) + multiset(events)| == |Rest(s, i)| + |events|;
    }
  }

  lemma QueueConserves<E>(s: State<E>, e: E)
    ensures Ledger(Step(s, Queue(e))) == Ledger(s) + multiset{e}
  {
    var q := s.queue + [e];
    var d := |q| - |Last(q)|;
    var t := Step(s, Queue(e));
    TrimSplits(q);
    assert t.trimmed == s.trimmed + q[..d];
    assert multiset(t.trimmed) == multiset(s.trimmed) + multiset(q[..d]);
    MoveBalance(multiset(s.queue), multiset(t.queue), multiset{e}, multiset(q[..d]),
                InFlight(s.flights), multiset(s.accepted), multiset(s.trimmed));
  }

  lemma MoveBalance<E>(queue: multiset<E>, kept: multiset<E>, e: multiset<E>, dropped: multiset<E>,
                       flights: multiset<E>, accepted: multiset<E>, trimmed: multiset<E>)
    requires queue + e == dropped + kept
    ensures kept + flights + accepted + (trimmed + dropped) == queue + flights + accepted + trimmed + e
  {
    assert forall x :: queue[x] + e[x] == (queue + e)[x] == dropped[x] + kept[x];
  }

  lemma BeginConserves<E>(s: State<E>)
    ensures Ledger(Step(s, Begin)) == Ledger(s)
  {
    InFlightAppend(s.flights, [s.queue]);
    assert InFlight([s.queue]) == multiset(s.queue) + InFlight([s.queue][1..]);
  }

  lemma StepConserves<E>(s: State<E>, op: Op<E>)
    requires op.Complete? ==> Clean(op.outcome)
    ensures Ledger(Step(s, op)) == Ledger(s) + Queued(op)
  {
    match op
    case Queue(e) =>
      QueueConserves(s, e);
    case Begin =>
      BeginConserves(s);
    case Complete(i, o) =>
      if i < |s.flights| {
        FlightLedger(s, i);
        CompleteLedger(s, i, o);
        assert Copies(1, s.flights[i]) == multiset(s.flights[i]);
      }
  }

  /** Over every interleaving of queueing with any number of flushes, the events queued are
      exactly those in the buffer, in flight, accepted or trimmed. */
  lemma {:induction false} RunConserves<E>(s: State<E>, ops: seq<Op<E>>)
    requires forall i :: 0 <= i < |ops| && ops[i].Complete? ==> Clean(ops[i].outcome)
    ensures Ledger(Run(s, ops)) == Ledger(s) + AllQueued(ops)
    decreases |ops|
  {
    if ops != [] {
      var n := |ops| - 1;
      RunConserves(s, ops[..n]);
      StepConserves(Run(s, ops[..n]), ops[n]);
    }
  }

  // ----- what the buffer holds

  /** Queueing keeps the last hundred of everything that was there and came since, and the
      trimmed events are a prefix of that. */
  lemma {:induction false} QueueAllKeepsLast<E>(q: seq<E>, es: seq<E>)
    requires es != [] || |q| <= MAX_QUEUE
    ensures QueueAll(q, es) == Last(q + es)
    decreases |es|
  {
    if es == [] {
      assert q + es == q;
    } else {
      var front, e := es[..|es| - 1], es[|es| - 1];
      if front == [] {
        assert es == [e];
      } else {
        QueueAllKeepsLast(q, front);
        assert q + front + [e] == q + es;
        assert Last(Last(q + front) + [e]) == Last(q + es);
      }
    }
  }

  /** From an empty buffer on, it holds the last hundred events queued. */
  lemma FromEmpty<E>(es: seq<E>)
    ensures QueueAll([], es) == Last(es)
    ensures |QueueAll([], es)| == if |es| < MAX_QUEUE then |es| else MAX_QUEUE
  {
    QueueAllKeepsLast([], es);
    assert [] + es == es;
  }

  function QueueOps<E>(es: seq<E>): (ops: seq<Op<E>>)
    ensures |ops| == |es|
  {
    seq(|es|, i requires 0 <= i < |es| => Queue(es[i]))
  }

  /** The trimmed events followed by the buffer: queueing an event appends to that sequence. */
  lemma QueueKeepsOrder<E>(s: State<E>, e: E)
    ensures Step(s, Queue(e)).trimmed + Step(s, Queue(e)).queue == s.trimmed + s.queue + [e]
  {
    var q := s.queue + [e];
    assert q == q[..|q| - |Last(q)|] + Last(q);
    assert s.trimmed + s.queue + [e] == s.trimmed + q;
  }

  lemma Reassociate<E>(a: seq<E>, es: seq<E>)
    requires es != []
    ensures a + es[..|es| - 1] + [es[|es| - 1]] == a + es
  {
  }

  lemma {:induction false} RunQueueOps<E>(s: State<E>, es: seq<E>)
    ensures Run(s, QueueOps(es)).queue == QueueAll(s.queue, es)
    ensures Run(s, QueueOps(es)).flights == s.flights
    ensures Run(s, QueueOps(es)).trimmed + Run(s, QueueOps(es)).queue == s.trimmed + s.queue + es
    decreases |es|
  {
    if es == [] {
      assert s.trimmed + s.queue + es == s.trimmed + s.queue;
    } else {
      var n := |es| - 1;
      assert QueueOps(es)[..n] == QueueOps(es[..n]);
      RunQueueOps(s, es[..n]);
      QueueKeepsOrder(Run(s, QueueOps(es[..n])), es[n]);
      Reassociate(s.trimmed + s.queue, es);
    }
  }

  lemma {:induction false} RunAppend<E>(s: State<E>, a: seq<Op<E>>, b: seq<Op<E>>)
    ensures Run(s, a + b) == Run(Run(s, a), b)
    decreases |b|
  {
    if b == [] {
      assert a + b == a;
    } else {
      assert (a + b)[..|a + b| - 1] == a + b[..|b| - 1];
      RunAppend(s, a, b[..|b| - 1]);
    }
  }

  /** What a completed flush puts back, once or twice or not at all. */
  function Returned<E>(events: seq<E>, o: Outcome): seq<E>
  {
    Extend([], events, o)
  }

  /** A flush during which `es` are queued. */
  function FlushWith<E>(es: seq<E>, o: Outcome): seq<Op<E>>
  {
    [Begin] + QueueOps(es) + [Complete(0, o)]
  }

  /** The run of a flush is its three parts. */
  lemma RunFlush<E>(s: State<E>, es: seq<E>, o: Outcome)
    ensures Run(s, FlushWith(es, o)) == Step(Run(Step(s, Begin), QueueOps(es)), Complete(0, o))
  {
    var first: seq<Op<E>>, last: seq<Op<E>> := [Begin], [Complete(0, o)];
    RunAppend(s, first + QueueOps(es), last);
    RunAppend(s, first, QueueOps(es));
    assert first[..0] == [] && last[..0] == [];
  }

  lemma BegunEmpty<E>(s: State<E>)
    requires s.flights == []
    ensures var begun := Step(s, Begin);
            begun.queue == [] && begun.trimmed == s.trimmed &&
            begun.flights == if s.queue == [] then [] else [s.queue]
  {
  }

  lemma CompleteOnly<E>(s: State<E>, events: seq<E>, o: Outcome)
    requires s.flights == if events == [] then [] else [events]
    ensures var t := Step(s, Complete(0, o));
            t.queue == Extend(s.queue, events, o) && t.flights == [] && t.trimmed == s.trimmed
  {
  }

  /** A flush puts what it returns behind the newer events. With nothing interleaved it changes
      the buffer unless it returns the events exactly once. It trims only what the newer events
      push out. */
  lemma FlushOrder<E>(s: State<E>, es: seq<E>, o: Outcome)
    requires s.flights == []
    ensures var t := Run(s, FlushWith(es, o));
            t.queue == QueueAll([], es) + Returned(s.queue, o) && t.flights == [] &&
            (es == [] ==> (t.queue == s.queue <==> s.queue == [] || Requeues(o) == 1)) &&
            t.trimmed + QueueAll([], es) == s.trimmed + es
  {
    hide Extend, Returned, QueueAll, Requeues, FlushWith, Step, Run;
    var begun := Step(s, Begin);
    RunFlush(s, es, o);
    BegunEmpty(s);
    RunQueueOps(begun, es);
    CompleteOnly(Run(begun, QueueOps(es)), s.queue, o);
    assert s.trimmed + [] + es == s.trimmed + es;
    ExtendParts(QueueAll([], es), s.queue, o);
    if es == [] {
      FromEmpty(es);
    }
  }

  lemma AtMostTwice(o: Outcome)
    ensures Requeues(o) in {0, 1, 2}
  {
  }

  lemma ExtendParts<E>(q: seq<E>, events: seq<E>, o: Outcome)
    ensures Extend(q, events, o) == q + Returned(events, o)
    ensures |Returned(events, o)| == Requeues(o) * |events|
    ensures Returned(events, o) == events <==> events == [] || Requeues(o) == 1
    ensures Requeues(o) == 2 ==> Returned(events, o) == events + events
  {
    assert Requeues(o) in {0, 1, 2};
  }

  ghost predicate Increasing(q: seq<int>)
  {
    forall i, j :: 0 <= i < j < |q| ==> q[i] < q[j]
  }

  ghost predicate Before(a: seq<int>, b: seq<int>)
  {
    forall i, j :: 0 <= i < |a| && 0 <= j < |b| ==> a[i] < b[j]
  }

  /** Events are numbered in the order of their age. */
  ghost predicate Aged(older: seq<int>, newer: seq<int>, es: seq<int>)
  {
    Increasing(older) && Increasing(newer) && Increasing(es) &&
    Before(older, newer) && Before(newer, es) && Before(older, es)
  }

  /** Cutting off the first `d` of the newer, the older and the latest events takes the oldest
      exactly when there are no newer ones, nothing is cut off, or all newer and older are. */
  lemma CutIsOldest(older: seq<int>, newer: seq<int>, es: seq<int>, d: nat)
    requires Aged(older, newer, es) && older != [] && d <= |newer + older + es|
    ensures Before((newer + older + es)[..d], (newer + older + es)[d..]) <==>
            newer == [] || d == 0 || d >= |newer| + |older|
  {
    var q := newer + older + es;
    if newer == [] {
      assert q == older + es && Increasing(older + es);
    } else if 0 < d < |newer| + |older| {
      var j := |newer| + |older| - 1;
      assert q[..d][0] == newer[0];
      assert q[d..][j - d] == q[j] == older[|older| - 1];
    } else if d > 0 {
      var e := d - |newer| - |older|;
      assert q[..d] == newer + older + es[..e] && q[d..] == es[e..];
    }
  }

  /** When the older events are there twice, even without newer ones. */
  lemma CutOfTwo(older: seq<int>, newer: seq<int>, es: seq<int>, d: nat)
    requires Aged(older, newer, es) && older != [] && d <= |newer + (older + older) + es|
    ensures var q := newer + (older + older) + es;
            Before(q[..d], q[d..]) <==> d == 0 || d >= |newer| + 2 * |older|
  {
    var q := newer + (older + older) + es;
    var m, k := |newer|, |older|;
    if 0 < d < m + 2 * k {
      var i, j := if m > 0 || d <= k then 0 else k - 1, if m > 0 || d > k then m + 2 * k - 1 else k;
      assert q[..d][i] == q[i] && q[d..][j - d] == q[j];
    } else if d > 0 {
      var e := d - m - 2 * k;
      assert q[..d] == newer + (older + older) + es[..e] && q[d..] == es[e..];
    }
  }

  /** How many events go when `newer` arrive during a flush that returns `older`, and `es` after. */
  function Dropped(older: nat, newer: nat, es: nat): nat
  {
    if es == 0 then Max(0, newer - MAX_QUEUE) else Max(0, newer + older + es - MAX_QUEUE)
  }

  lemma SplitAt<E>(a: seq<E>, b: seq<E>, c: seq<E>, q: seq<E>, d: nat)
    requires a + b == c + q && d <= |q| && |b| == |q| - d
    ensures a == c + q[..d] && b == q[d..]
  {
    assert (a + b)[|a|..] == b && (a + b)[..|a|] == a;
  }

  lemma JoinTrimmed<E>(trimmed: seq<E>, kept: seq<E>, before: seq<E>, newer: seq<E>, older: seq<E>, es: seq<E>)
    requires trimmed + kept == before + newer
    ensures trimmed + (kept + older) + es == before + (newer + older + es)
  {
    assert trimmed + (kept + older) + es == trimmed + kept + (older + es);
    assert before + newer + (older + es) == before + (newer + older + es);
  }

  lemma KeptLength<E>(older: seq<E>, newer: seq<E>, es: seq<E>)
    ensures |QueueAll(Last(newer) + older, es)| ==
            |newer| + |older| + |es| - Dropped(|older|, |newer|, |es|)
  {
    if es != [] {
      QueueAllKeepsLast(Last(newer) + older, es);
    }
  }

  /** A flush and the queueing after it, as one cut through the events in their new order. */
  lemma FlushCuts<E>(s: State<E>, newer: seq<E>, es: seq<E>, o: Outcome)
    requires s.flights == []
    ensures var older := Returned(s.queue, o);
            var q, d := newer + older + es, Dropped(|older|, |newer|, |es|);
            var t := Run(s, FlushWith(newer, o) + QueueOps(es));
            d <= |q| && t.trimmed == s.trimmed + q[..d] && t.queue == q[d..]
  {
    hide Step, FlushWith, QueueOps, QueueAll, Last, Returned;
    var flushed, older := Run(s, FlushWith(newer, o)), Returned(s.queue, o);
    FlushOrder(s, newer, o);
    FromEmpty(newer);
    RunAppend(s, FlushWith(newer, o), QueueOps(es));
    RunQueueOps(flushed, es);
    JoinTrimmed(flushed.trimmed, Last(newer), s.trimmed, newer, older, es);
    KeptLength(older, newer, es);
    var t := Run(flushed, QueueOps(es));
    SplitAt(t.trimmed, t.queue, s.trimmed, newer + older + es, Dropped(|older|, |newer|, |es|));
  }

  /** After a flush that returns nothing (an accepted one, or a cancelled one) the buffer holds the
      last hundred of the events queued since it began. */
  lemma SinceFlush<E>(s: State<E>, newer: seq<E>, es: seq<E>, o: Outcome)
    requires s.flights == [] && Requeues(o) == 0
    ensures var t := Run(s, FlushWith(newer, o) + QueueOps(es));
            t.queue == Last(newer + es) &&
            t.accepted == s.accepted + (if Accepted(o) then s.queue else [])
  {
    hide Step, FlushWith, QueueOps;
    FlushCuts(s, newer, es, o);
    assert newer + [] + es == newer + es;
    RunAppend(s, FlushWith(newer, o), QueueOps(es));
    FlushAccepts(s, newer, o);
    QueueingAcceptsNothing(Run(s, FlushWith(newer, o)), es);
  }

  lemma {:induction false} QueueingAcceptsNothing<E>(s: State<E>, es: seq<E>)
    ensures Run(s, QueueOps(es)).accepted == s.accepted
    decreases |es|
  {
    if es != [] {
      assert QueueOps(es)[..|es| - 1] == QueueOps(es[..|es| - 1]);
      QueueingAcceptsNothing(s, es[..|es| - 1]);
    }
  }

  lemma FlushAccepts<E>(s: State<E>, es: seq<E>, o: Outcome)
    requires s.flights == []
    ensures Run(s, FlushWith(es, o)).accepted == s.accepted + (if Accepted(o) then s.queue else [])
  {
    RunFlush(s, es, o);
    QueueingAcceptsNothing(Step(s, Begin), es);
    RunQueueOps(Step(s, Begin), es);
  }

  /** Where the events of a flush end, outcome by outcome: 202 alone is an acceptance, and
      everything else but a cancellation puts the events behind those queued meanwhile, twice
      if a refusal is followed by an exception on closing. */
  lemma OutcomeDecides<E>(s: State<E>, newer: seq<E>, o: Outcome)
    requires s.flights == []
    ensures var t, kept := Run(s, FlushWith(newer, o)), Last(newer);
            match o
            case Cancelled => t.accepted == s.accepted && t.queue == kept
            case Finished(Raised, CloseCancelled) => t.accepted == s.accepted && t.queue == kept
            case Finished(Raised, _) => t.accepted == s.accepted && t.queue == kept + s.queue
            case Finished(Status(code), close) =>
              t.accepted == s.accepted + (if code == 202 then s.queue else []) &&
              t.queue == kept + (if code == 202 then [] else s.queue) +
                         (if close == CloseRaised then s.queue else [])
  {
    hide Run, FlushWith, QueueAll, Last;
    FlushOrder(s, newer, o);
    FromEmpty(newer);
    FlushAccepts(s, newer, o);
    assert s.accepted + [] == s.accepted;
  }

  /** The buffer promises to drop the oldest events. Around a flush, with `newer` queued while it
      was under way and `es` afterwards, it does so exactly when the flush returns nothing, or
      returns the events once and nothing was queued meanwhile, or everything returned is dropped
      again, or nothing is dropped at all; otherwise an event goes while one that is no newer
      stays. */
  lemma TrimsOldestExactly(s: State<int>, newer: seq<int>, es: seq<int>, o: Outcome)
    requires s.flights == [] && Aged(s.queue, newer, es)
    ensures var t := Run(s, FlushWith(newer, o) + QueueOps(es));
            s.trimmed <= t.trimmed &&
            (Before(t.trimmed[|s.trimmed|..], t.queue) <==>
             s.queue == [] || Requeues(o) == 0 || (newer == [] && Requeues(o) == 1) || |es| >= MAX_QUEUE ||
             (|newer| <= MAX_QUEUE && (es == [] || |newer| + Requeues(o) * |s.queue| + |es| <= MAX_QUEUE)))
  {
    hide Run, FlushWith, QueueOps, Returned, Requeues;
    var older := Returned(s.queue, o);
    var q, d := newer + older + es, Dropped(|older|, |newer|, |es|);
    FlushCuts(s, newer, es, o);
    ExtendParts([], s.queue, o);
    assert (s.trimmed + q[..d])[|s.trimmed|..] == q[..d];
    if older == [] {
      assert q == newer + es && Increasing(newer + es);
    } else if Requeues(o) == 1 {
      CutIsOldest(s.queue, newer, es, d);
    } else {
      assert Requeues(o) == 2 by {
        AtMostTwice(o);
      }
      CutOfTwo(s.queue, newer, es, d);
    }
  }

  // ----- when the limit is a bound

  /** If the operation completes a flush, what it puts back still fits. */
  predicate Fits<E>(s: State<E>, op: Op<E>)
  {
    op.Complete? && op.flight < |s.flights| ==>
      |s.queue| + Requeues(op.outcome) * |s.flights[op.flight]| <= MAX_QUEUE
  }

  lemma ExtendLength<E>(q: seq<E>, events: seq<E>, o: Outcome)
    ensures |Extend(q, events, o)| == |q| + Requeues(o) * |events|
  {
    assert Requeues(o) in {0, 1, 2};
  }

  lemma StepWithinLimit<E>(s: State<E>, op: Op<E>)
    requires |s.queue| <= MAX_QUEUE
    ensures |Step(s, op).queue| <= MAX_QUEUE <==> Fits(s, op)
  {
    if op.Complete? && op.flight < |s.flights| {
      ExtendLength(s.queue, s.flights[op.flight], op.outcome);
    }
  }

  lemma RunNext<E>(s: State<E>, ops: seq<Op<E>>, k: nat)
    requires k < |ops|
    ensures Run(s, ops[..k + 1]) == Step(Run(s, ops[..k]), ops[k])
  {
    assert ops[..k + 1][..k] == ops[..k];
  }

  lemma {:induction false} FittingPrefix<E>(s: State<E>, ops: seq<Op<E>>, k: nat)
    requires k <= |ops| && |s.queue| <= MAX_QUEUE
    requires forall j :: 0 <= j < k ==> Fits(Run(s, ops[..j]), ops[j])
    ensures |Run(s, ops[..k]).queue| <= MAX_QUEUE
  {
    hide Step, Fits;
    if k > 0 {
      FittingPrefix(s, ops, k - 1);
      RunNext(s, ops, k - 1);
      StepWithinLimit(Run(s, ops[..k - 1]), ops[k - 1]);
    } else {
      assert ops[..0] == [];
    }
  }

  /** The buffer stays within its limit throughout a run exactly when every completed flush
      finds room for what it puts back. */
  lemma WithinLimitExactly<E>(s: State<E>, ops: seq<Op<E>>)
    requires |s.queue| <= MAX_QUEUE
    ensures (forall k :: 0 <= k <= |ops| ==> |Run(s, ops[..k]).queue| <= MAX_QUEUE) <==>
            (forall k :: 0 <= k < |ops| ==> Fits(Run(s, ops[..k]), ops[k]))
  {
    hide Step, Fits, Run;
    if forall k :: 0 <= k <= |ops| ==> |Run(s, ops[..k]).queue| <= MAX_QUEUE {
      forall k | 0 <= k < |ops|
        ensures Fits(Run(s, ops[..k]), ops[k])
      {
        RunNext(s, ops, k);
        StepWithinLimit(Run(s, ops[..k]), ops[k]);
      }
    }
    if forall k :: 0 <= k < |ops| ==> Fits(Run(s, ops[..k]), ops[k]) {
      forall k | 0 <= k <= |ops|
        ensures |Run(s, ops[..k]).queue| <= MAX_QUEUE
      {
        FittingPrefix(s, ops, k);
      }
    }
  }

  /** One flush stays within the limit exactly when what it puts back fits beside the events
      queued meanwhile. */
  lemma FlushWithinLimit<E>(s: State<E>, es: seq<E>, o: Outcome)
    requires s.flights == []
    ensures |Run(s, FlushWith(es, o)).queue| <= MAX_QUEUE <==>
            (if |es| < MAX_QUEUE then |es| else MAX_QUEUE) + Requeues(o) * |s.queue| <= MAX_QUEUE
  {
    FlushOrder(s, es, o);
    FromEmpty(es);
    ExtendParts([], s.queue, o);
  }

  const REFUSED: Outcome := Finished(Raised, Closed)

  /** A hundred copies of one event. */
  function Hundred<E>(e: E): (es: seq<E>)
    ensures |es| == MAX_QUEUE
  {
    seq(MAX_QUEUE, _ => e)
  }

  /** `n` failed flushes, each with a hundred events queued meanwhile. */
  function Outage<E>(e: E, n: nat): seq<Op<E>>
  {
    if n == 0 then QueueOps(Hundred(e)) else Outage(e, n - 1) + FlushWith(Hundred(e), REFUSED)
  }

  /** The hundred-event limit is checked only when an event is queued: during an outage the
      buffer grows without bound. */
  lemma {:induction false} OutageGrows<E>(e: E, n: nat)
    ensures var t := Run(State([], [], [], []), Outage(e, n));
            |t.queue| == (n + 1) * 100 && t.flights == []
  {
    hide Step, QueueOps, FlushWith, QueueAll, Hundred;
    var s: State<E> := State([], [], [], []);
    FromEmpty(Hundred(e));
    if n == 0 {
      RunQueueOps(s, Hundred(e));
    } else {
      OutageGrows(e, n - 1);
      RunAppend(s, Outage(e, n - 1), FlushWith(Hundred(e), REFUSED));
      FlushOrder(Run(s, Outage(e, n - 1)), Hundred(e), REFUSED);
    }
  }
}
