/** What the edge agent's sender does to its batch and its offline queue, for every sequence of
    received events and ticks and every outcome of every POST. */
module SenderModel {
  import Fifo
  import opened Numbers

  datatype Event = Event(eventType: string, severity: string, title: string, details: string, timestamp: string)

  /** A request body before JSON encoding. Shutdown writes the bare array; `Raw` is the content
      of a file that some other program put into the queue directory. */
  datatype Body =
    | Envelope(deviceId: string, timestamp: string, events: seq<Event>)
    | BareArray(events: seq<Event>)
    | Raw(bytes: string)

  /** How one HTTP exchange ends. */
  datatype Exchange = NoRequest | NoResponse | BodyUnreadable | Answered(status: int)

  /** `exchange(n, body)` is how POST number `n`, carrying `body`, ends; `stamp(n)` is the time
      formatted into the envelope of that POST. */
  datatype Config = Config(
    batchSize: nat,
    deviceId: string,
    limit: int,
    size: Body -> nat,
    exchange: (nat, Body) -> Exchange,
    stamp: nat -> string)
  {
    /** Whether POST number `n` returns without an error. */
    predicate Accepts(n: nat, body: Body)
    {
      var e := exchange(n, body);
      e.Answered? && e.status < 400
    }
  }

  /** `other` is the bytes of directory entries that are not queue files. The last four fields
      record what has happened: bodies accepted, bodies evicted, batches sent, events received. */
  datatype State = State(
    batch: seq<Event>,
    queue: seq<Body>,
    other: nat,
    posts: nat,
    acked: seq<Body>,
    evicted: seq<Body>,
    sent: seq<seq<Event>>,
    received: seq<Event>)

  datatype Input = Receive(event: Event) | Tick

  // ----- the steps of `runSender`

  function Enqueue(cfg: Config, s: State, body: Body): State
  {
    var k := Fifo.EvictCount(s.queue, cfg.size, s.other, cfg.limit);
    s.(queue := Fifo.Enqueue(s.queue, body, cfg.size, s.other, cfg.limit),
       evicted := s.evicted + s.queue[..k])
  }

  function Ack(s: State, body: Body): State
  {
    s.(acked := s.acked + [body])
  }

  function TakeBatch(s: State): State
  {
    s.(posts := s.posts + 1, sent := s.sent + [s.batch], batch := [])
  }

  function SendBatch(cfg: Config, s: State): State
  {
    var body := Envelope(cfg.deviceId, cfg.stamp(s.posts), s.batch);
    if cfg.Accepts(s.posts, body) then Ack(TakeBatch(s), body) else Enqueue(cfg, TakeBatch(s), body)
  }

  function Pop(s: State): State
    requires s.queue != []
  {
    s.(queue := s.queue[1..], posts := s.posts + 1)
  }

  /** Sends queued bodies, oldest first, until the queue is empty or one is refused; that one
      goes to the back. */
  function Drain(cfg: Config, s: State): State
    decreases |s.queue|
  {
    if s.queue == [] then s
    else if cfg.Accepts(s.posts, s.queue[0]) then Drain(cfg, Ack(Pop(s), s.queue[0]))
    else Enqueue(cfg, Pop(s), s.queue[0])
  }

  function Grow(s: State, e: Event): State
  {
    s.(batch := s.batch + [e], received := s.received + [e])
  }

  function Step(cfg: Config, s: State, input: Input): State
  {
    match input
    case Receive(e) =>
      if |s.batch| + 1 >= cfg.batchSize then SendBatch(cfg, Grow(s, e)) else Grow(s, e)
    case Tick =>
      Drain(cfg, if s.batch != [] then SendBatch(cfg, s) else s)
  }

  function Run(cfg: Config, s: State, inputs: seq<Input>): State
    decreases |inputs|
  {
    if inputs == [] then s
    else Step(cfg, Run(cfg, s, inputs[..|inputs| - 1]), inputs[|inputs| - 1])
  }

  /** The `ctx.Done()` branch. */
  function Shutdown(cfg: Config, s: State): State
  {
    if s.batch == [] then s
    else Enqueue(cfg, s.(batch := []), BareArray(s.batch))
  }

  // ----- conservation of events

  function EventsOf(body: Body): seq<Event>
  {
    if body.Raw? then [] else body.events
  }

  function AllEvents(q: seq<Body>): multiset<Event>
  {
    if q == [] then multiset{} else multiset(EventsOf(q[0])) + AllEvents(q[1..])
  }

  /** Every place an event can be: the batch, the server, the disk, or lost to eviction. */
  function Ledger(s: State): multiset<Event>
  {
    multiset(s.batch) + AllEvents(s.acked) + AllEvents(s.queue) + AllEvents(s.evicted)
  }

  lemma {:induction false} AllEventsAppend(a: seq<Body>, b: seq<Body>)
    ensures AllEvents(a + b) == AllEvents(a) + AllEvents(b)
  {
    if a == [] {
      assert a + b == b;
    } else {
      assert (a + b)[1..] == a[1..] + b;
      AllEventsAppend(a[1..], b);
    }
  }

  lemma AllEventsOne(body: Body)
    ensures AllEvents([body]) == multiset(EventsOf(body))
  {
    assert [body][1..] == [];
  }

  lemma EnqueueConserves(cfg: Config, s: State, body: Body)
    ensures Ledger(Enqueue(cfg, s, body)) == Ledger(s) + multiset(EventsOf(body))
  {
    var k := Fifo.EvictCount(s.queue, cfg.size, s.other, cfg.limit);
    assert s.queue == s.queue[..k] + s.queue[k..];
    AllEventsAppend(s.queue[..k], s.queue[k..]);
    AllEventsAppend(s.evicted, s.queue[..k]);
    AllEventsAppend(s.queue[k..], [body]);
    AllEventsOne(body);
  }

  lemma AckConserves(s: State, body: Body)
    ensures Ledger(Ack(s, body)) == Ledger(s) + multiset(EventsOf(body))
  {
    AllEventsAppend(s.acked, [body]);
    AllEventsOne(body);
  }

  lemma TakeBatchLedger(s: State)
    ensures Ledger(s) == Ledger(TakeBatch(s)) + multiset(s.batch)
  {
  }

  lemma SendBatchConserves(cfg: Config, s: State)
    ensures Ledger(SendBatch(cfg, s)) == Ledger(s)
  {
    hide Ledger, Enqueue, Ack, TakeBatch;
    var body := Envelope(cfg.deviceId, cfg.stamp(s.posts), s.batch);
    TakeBatchLedger(s);
    AckConserves(TakeBatch(s), body);
    EnqueueConserves(cfg, TakeBatch(s), body);
  }

  lemma PopLedger(s: State)
    requires s.queue != []
    ensures Ledger(s) == Ledger(Pop(s)) + multiset(EventsOf(s.queue[0]))
  {
  }

  lemma {:induction false} DrainConserves(cfg: Config, s: State)
    ensures Ledger(Drain(cfg, s)) == Ledger(s)
    decreases |s.queue|
  {
    if s.queue != [] {
      PopLedger(s);
      if cfg.Accepts(s.posts, s.queue[0]) {
        AckConserves(Pop(s), s.queue[0]);
        DrainConserves(cfg, Ack(Pop(s), s.queue[0]));
      } else {
        EnqueueConserves(cfg, Pop(s), s.queue[0]);
      }
    }
  }

  function Arrived(input: Input): seq<Event>
  {
    match input
    case Receive(e) => [e]
    case Tick => []
  }

  function Arrivals(inputs: seq<Input>): seq<Event>
    decreases |inputs|
  {
    if inputs == [] then []
    else Arrivals(inputs[..|inputs| - 1]) + Arrived(inputs[|inputs| - 1])
  }

  lemma GrowLedger(s: State, e: Event)
    ensures Ledger(Grow(s, e)) == Ledger(s) + multiset(Arrived(Receive(e)))
  {
  }

  lemma StepConserves(cfg: Config, s: State, input: Input)
    ensures Ledger(Step(cfg, s, input)) == Ledger(s) + multiset(Arrived(input))
  {
    match input
    case Receive(e) =>
      GrowLedger(s, e);
      SendBatchConserves(cfg, Grow(s, e));
    case Tick =>
      SendBatchConserves(cfg, s);
      DrainConserves(cfg, if s.batch != [] then SendBatch(cfg, s) else s);
      assert multiset(Arrived(input)) == multiset{};
  }

  /** Whatever the server answers, no event is invented and none disappears: at every loop head
      the received events and those initially held are exactly those in the batch, accepted,
      queued or evicted. */
  lemma {:induction false} RunConserves(cfg: Config, s: State, inputs: seq<Input>)
    ensures Ledger(Run(cfg, s, inputs)) == Ledger(s) + multiset(Arrivals(inputs))
    decreases |inputs|
  {
    if inputs == [] {
      assert multiset(Arrivals(inputs)) == multiset{};
    } else {
      var front, input := inputs[..|inputs| - 1], inputs[|inputs| - 1];
      RunConserves(cfg, s, front);
      StepConserves(cfg, Run(cfg, s, front), input);
    }
  }

  /** After shutdown the batch is part of the disk queue, and still nothing is lost. */
  lemma ShutdownConserves(cfg: Config, s: State)
    ensures Ledger(Shutdown(cfg, s)) == Ledger(s)
    ensures Shutdown(cfg, s).batch == []
    ensures Shutdown(cfg, s).posts == s.posts && Shutdown(cfg, s).acked == s.acked
    ensures s.batch != [] ==>
              var q := Shutdown(cfg, s).queue; q != [] && q[|q| - 1] == BareArray(s.batch)
  {
    if s.batch != [] {
      EnqueueConserves(cfg, s.(batch := []), BareArray(s.batch));
    }
  }

  /** One process: the configuration it loads and what it receives until it is shut down. */
  datatype Process = Process(cfg: Config, inputs: seq<Input>)

  /** Successive processes over one queue directory: each loads its own configuration, runs,
      shuts down, and leaves the directory to the next. */
  function Sessions(s: State, processes: seq<Process>): State
    decreases |processes|
  {
    if processes == [] then s
    else
      var p := processes[|processes| - 1];
      Shutdown(p.cfg, Run(p.cfg, Sessions(s, processes[..|processes| - 1]), p.inputs))
  }

  function AllArrivals(processes: seq<Process>): multiset<Event>
    decreases |processes|
  {
    if processes == [] then multiset{}
    else AllArrivals(processes[..|processes| - 1]) + multiset(Arrivals(processes[|processes| - 1].inputs))
  }

  /** Events outside the process: accepted, on disk, or evicted. */
  function OffBatch(s: State): multiset<Event>
  {
    AllEvents(s.acked) + AllEvents(s.queue) + AllEvents(s.evicted)
  }

  lemma NoBatchLedger(s: State)
    requires s.batch == []
    ensures Ledger(s) == OffBatch(s)
  {
  }

  /** Between two processes every event received so far, and every event initially on disk, has
      been accepted, is on disk, or was evicted. */
  lemma {:induction false} SessionsConserve(s: State, processes: seq<Process>)
    requires s.batch == []
    ensures var t := Sessions(s, processes);
            t.batch == [] && OffBatch(t) == OffBatch(s) + AllArrivals(processes)
    decreases |processes|
  {
    if processes != [] {
      var front, p := processes[..|processes| - 1], processes[|processes| - 1];
      var before := Sessions(s, front);
      SessionsConserve(s, front);
      RunConserves(p.cfg, before, p.inputs);
      ShutdownConserves(p.cfg, Run(p.cfg, before, p.inputs));
      NoBatchLedger(before);
      NoBatchLedger(Sessions(s, processes));
    }
  }

  // ----- batching

  function Concat(batches: seq<seq<Event>>): seq<Event>
    decreases |batches|
  {
    if batches == [] then [] else Concat(batches[..|batches| - 1]) + batches[|batches| - 1]
  }

  /** A batch is never empty and never longer than `BatchSize`; a `BatchSize` of 0 acts as 1. */
  ghost predicate Batched(cfg: Config, s: State)
  {
    |s.batch| < Max(1, cfg.batchSize) &&
    (forall b :: b in s.sent ==> 1 <= |b| <= Max(1, cfg.batchSize)) &&
    Concat(s.sent) + s.batch == s.received
  }

  lemma {:induction false} DrainFrame(cfg: Config, s: State)
    ensures var t := Drain(cfg, s);
            t.batch == s.batch && t.sent == s.sent && t.received == s.received && t.other == s.other
    decreases |s.queue|
  {
    if s.queue != [] {
      DrainFrame(cfg, Ack(Pop(s), s.queue[0]));
    }
  }

  lemma StepRecords(cfg: Config, s: State, input: Input)
    ensures Step(cfg, s, input).received == s.received + Arrived(input)
  {
    if input.Tick? {
      DrainFrame(cfg, if s.batch != [] then SendBatch(cfg, s) else s);
    }
  }

  lemma {:induction false} RunRecords(cfg: Config, s: State, inputs: seq<Input>)
    ensures Run(cfg, s, inputs).received == s.received + Arrivals(inputs)
    decreases |inputs|
  {
    if inputs != [] {
      var front, input := inputs[..|inputs| - 1], inputs[|inputs| - 1];
      RunRecords(cfg, s, front);
      StepRecords(cfg, Run(cfg, s, front), input);
    }
  }

  /** Batches preserve the order of arrival: at every loop head the batches sent so far followed
      by the current one are the received sequence. */
  lemma {:induction false} RunKeepsBatched(cfg: Config, s: State, inputs: seq<Input>)
    requires Batched(cfg, s)
    ensures Batched(cfg, Run(cfg, s, inputs))
    decreases |inputs|
  {
    if inputs != [] {
      RunKeepsBatched(cfg, s, inputs[..|inputs| - 1]);
      StepKeepsBatched(cfg, Run(cfg, s, inputs[..|inputs| - 1]), inputs[|inputs| - 1]);
    }
  }

  lemma SendBatchKeepsBatched(cfg: Config, s: State)
    requires 1 <= |s.batch| <= Max(1, cfg.batchSize)
    requires forall b :: b in s.sent ==> 1 <= |b| <= Max(1, cfg.batchSize)
    requires Concat(s.sent) + s.batch == s.received
    ensures Batched(cfg, SendBatch(cfg, s))
  {
  }

  lemma StepKeepsBatched(cfg: Config, s: State, input: Input)
    requires Batched(cfg, s)
    ensures Batched(cfg, Step(cfg, s, input))
  {
    match input
    case Receive(e) =>
      var grown := Grow(s, e);
      assert Concat(s.sent) + (s.batch + [e]) == Concat(s.sent) + s.batch + [e];
      if |grown.batch| >= cfg.batchSize {
        SendBatchKeepsBatched(cfg, grown);
      }
    case Tick =>
      if s.batch != [] {
        SendBatchKeepsBatched(cfg, s);
      }
      DrainFrame(cfg, if s.batch != [] then SendBatch(cfg, s) else s);
  }

  /** A tick sends whatever has been batched: after it everything received has been sent. */
  lemma TickSendsBatch(cfg: Config, s: State, inputs: seq<Input>)
    requires Batched(cfg, s) && inputs != [] && inputs[|inputs| - 1] == Tick
    ensures var t := Run(cfg, s, inputs); t.batch == [] && Concat(t.sent) == t.received
  {
    var before := Run(cfg, s, inputs[..|inputs| - 1]);
    RunKeepsBatched(cfg, s, inputs);
    DrainFrame(cfg, if before.batch != [] then SendBatch(cfg, before) else before);
    var t := Run(cfg, s, inputs);
    assert Concat(t.sent) + [] == Concat(t.sent);
  }

  /** Without a tick a batch is sent only when it is full, and nothing else is POSTed. */
  lemma {:induction false} ReceivesSendFullBatches(cfg: Config, s: State, inputs: seq<Input>)
    requires |s.batch| < Max(1, cfg.batchSize)
    requires forall i :: 0 <= i < |inputs| ==> inputs[i].Receive?
    ensures var t := Run(cfg, s, inputs);
            |t.batch| < Max(1, cfg.batchSize) && s.sent <= t.sent &&
            t.posts - s.posts == |t.sent| - |s.sent| &&
            forall i :: |s.sent| <= i < |t.sent| ==> |t.sent[i]| == Max(1, cfg.batchSize)
    decreases |inputs|
  {
    if inputs != [] {
      ReceivesSendFullBatches(cfg, s, inputs[..|inputs| - 1]);
    }
  }

  /** Every batch sent is one envelope of this agent, with the events in their order, and that
      envelope was accepted, is queued, or was evicted. */
  ghost predicate Carried(cfg: Config, s: State)
  {
    forall b :: b in s.sent ==>
      exists n: nat :: n < s.posts && Envelope(cfg.deviceId, cfg.stamp(n), b) in s.acked + s.queue + s.evicted
  }

  lemma MoveKeepsCarried(cfg: Config, s: State, t: State)
    requires Carried(cfg, s) && s.sent == t.sent && s.posts <= t.posts
    requires forall b :: b in s.acked + s.queue + s.evicted ==> b in t.acked + t.queue + t.evicted
    ensures Carried(cfg, t)
  {
    forall b | b in t.sent
      ensures exists n: nat :: n < t.posts && Envelope(cfg.deviceId, cfg.stamp(n), b) in t.acked + t.queue + t.evicted
    {
      var n: nat :| n < s.posts && Envelope(cfg.deviceId, cfg.stamp(n), b) in s.acked + s.queue + s.evicted;
    }
  }

  /** Enqueueing keeps every body somewhere. */
  lemma EnqueueKeepsBodies(cfg: Config, s: State, body: Body)
    ensures var t := Enqueue(cfg, s, body);
            body in t.queue &&
            forall b :: b in s.acked + s.queue + s.evicted ==> b in t.acked + t.queue + t.evicted
  {
    var k := Fifo.EvictCount(s.queue, cfg.size, s.other, cfg.limit);
    var t := Enqueue(cfg, s, body);
    assert s.queue == s.queue[..k] + s.queue[k..];
    assert t.queue[|t.queue| - 1] == body;
    forall b | b in s.acked + s.queue + s.evicted
      ensures b in t.acked + t.queue + t.evicted
    {
      if b in s.queue {
        assert b in s.queue[..k] || b in s.queue[k..];
      }
    }
  }

  lemma SendBatchCarries(cfg: Config, s: State)
    requires Carried(cfg, s)
    ensures Carried(cfg, SendBatch(cfg, s))
  {
    hide Enqueue;
    var body, t := Envelope(cfg.deviceId, cfg.stamp(s.posts), s.batch), SendBatch(cfg, s);
    EnqueueKeepsBodies(cfg, TakeBatch(s), body);
    EnqueueFrame(cfg, TakeBatch(s), body);
    assert body in t.acked + t.queue + t.evicted;
    forall b | b in t.sent
      ensures exists n: nat :: n < t.posts && Envelope(cfg.deviceId, cfg.stamp(n), b) in t.acked + t.queue + t.evicted
    {
      if b in s.sent {
        var n: nat :| n < s.posts && Envelope(cfg.deviceId, cfg.stamp(n), b) in s.acked + s.queue + s.evicted;
      } else {
        assert b == s.batch;
      }
    }
  }

  lemma EnqueueFrame(cfg: Config, s: State, body: Body)
    ensures var t := Enqueue(cfg, s, body);
            t.batch == s.batch && t.posts == s.posts && t.acked == s.acked &&
            t.sent == s.sent && t.received == s.received && t.other == s.other
  {
  }

  lemma {:induction false} DrainCarries(cfg: Config, s: State)
    requires Carried(cfg, s)
    ensures Carried(cfg, Drain(cfg, s))
    decreases |s.queue|
  {
    hide Carried, Enqueue;
    if s.queue != [] {
      var body := s.queue[0];
      if cfg.Accepts(s.posts, body) {
        MoveKeepsCarried(cfg, s, Ack(Pop(s), body));
        DrainCarries(cfg, Ack(Pop(s), body));
      } else {
        EnqueueKeepsBodies(cfg, Pop(s), body);
        EnqueueFrame(cfg, Pop(s), body);
        MoveKeepsCarried(cfg, s, Enqueue(cfg, Pop(s), body));
      }
    }
  }

  lemma {:induction false} RunKeepsCarried(cfg: Config, s: State, inputs: seq<Input>)
    requires Carried(cfg, s)
    ensures Carried(cfg, Run(cfg, s, inputs))
    decreases |inputs|
  {
    hide SendBatch, Drain;
    if inputs != [] {
      var before, input := Run(cfg, s, inputs[..|inputs| - 1]), inputs[|inputs| - 1];
      RunKeepsCarried(cfg, s, inputs[..|inputs| - 1]);
      match input
      case Receive(e) =>
        SendBatchCarries(cfg, Grow(before, e));
      case Tick =>
        SendBatchCarries(cfg, before);
        DrainCarries(cfg, if before.batch != [] then SendBatch(cfg, before) else before);
    }
  }

  /** The body carries this agent's device number and the time of one of its POSTs. */
  ghost predicate Stamped(cfg: Config, posts: nat, b: Body)
  {
    b.Envelope? && b.deviceId == cfg.deviceId && exists n: nat :: n < posts && b.timestamp == cfg.stamp(n)
  }

  /** Whatever is accepted, queued or evicted was there initially or was stamped by this agent. */
  ghost predicate Stamps(cfg: Config, initial: set<Body>, s: State)
  {
    forall b :: b in s.acked + s.queue + s.evicted ==> b in initial || Stamped(cfg, s.posts, b)
  }

  lemma MoveKeepsStamps(cfg: Config, initial: set<Body>, s: State, t: State)
    requires Stamps(cfg, initial, s) && s.posts <= t.posts
    requires forall b :: b in t.acked + t.queue + t.evicted ==>
               b in s.acked + s.queue + s.evicted || Stamped(cfg, t.posts, b)
    ensures Stamps(cfg, initial, t)
  {
    assert forall b :: Stamped(cfg, s.posts, b) ==> Stamped(cfg, t.posts, b);
  }

  lemma SendBatchStamps(cfg: Config, initial: set<Body>, s: State)
    requires Stamps(cfg, initial, s)
    ensures Stamps(cfg, initial, SendBatch(cfg, s))
  {
  }

  lemma {:induction false} DrainStamps(cfg: Config, initial: set<Body>, s: State)
    requires Stamps(cfg, initial, s)
    ensures Stamps(cfg, initial, Drain(cfg, s))
    decreases |s.queue|
  {
    if s.queue != [] {
      var body := s.queue[0];
      var next := if cfg.Accepts(s.posts, body) then Ack(Pop(s), body) else Enqueue(cfg, Pop(s), body);
      assert body in s.acked + s.queue + s.evicted;
      forall b | b in next.acked + next.queue + next.evicted
        ensures b in s.acked + s.queue + s.evicted
      {
      }
      MoveKeepsStamps(cfg, initial, s, next);
      if cfg.Accepts(s.posts, body) {
        DrainStamps(cfg, initial, next);
      }
    }
  }

  lemma {:induction false} RunKeepsStamps(cfg: Config, initial: set<Body>, s: State, inputs: seq<Input>)
    requires Stamps(cfg, initial, s)
    ensures Stamps(cfg, initial, Run(cfg, s, inputs))
    decreases |inputs|
  {
    if inputs != [] {
      var before, input := Run(cfg, s, inputs[..|inputs| - 1]), inputs[|inputs| - 1];
      RunKeepsStamps(cfg, initial, s, inputs[..|inputs| - 1]);
      match input
      case Receive(e) =>
        SendBatchStamps(cfg, initial, Grow(before, e));
      case Tick =>
        SendBatchStamps(cfg, initial, before);
        DrainStamps(cfg, initial, if before.batch != [] then SendBatch(cfg, before) else before);
    }
  }

  // ----- the exact effect of draining

  /** Of the queue, the first `k` bodies are accepted in order. Either that is all of them, or
      body `k` is refused and ends up behind the bodies after it, of which an oldest-first
      prefix of `e` was evicted; none is evicted exactly when those bodies fit the limit. */
  ghost predicate DrainEffect(cfg: Config, s: State, t: State, k: nat, e: nat)
  {
    var q := s.queue;
    k <= |q| &&
    (forall i :: 0 <= i < k ==> cfg.Accepts(s.posts + i, q[i])) &&
    t.acked == s.acked + q[..k] &&
    if k == |q| then
      t.posts == s.posts + k && t.queue == [] && e == 0 && t.evicted == s.evicted
    else
      var rest := q[k + 1..];
      !cfg.Accepts(s.posts + k, q[k]) && t.posts == s.posts + k + 1 && e <= |rest| &&
      t.queue == rest[e..] + [q[k]] && t.evicted == s.evicted + rest[..e] &&
      e == Fifo.EvictCount(rest, cfg.size, s.other, cfg.limit) &&
      (e == 0 <==> rest == [] || s.other + Fifo.Sum(rest, cfg.size) <= cfg.limit)
  }

  function AcceptCount(cfg: Config, posts: nat, q: seq<Body>): (k: nat)
    ensures k <= |q|
    decreases q
  {
    if q == [] || !cfg.Accepts(posts, q[0]) then 0 else 1 + AcceptCount(cfg, posts + 1, q[1..])
  }

  lemma {:induction false} AcceptCountExact(cfg: Config, posts: nat, q: seq<Body>)
    ensures var k := AcceptCount(cfg, posts, q);
            (forall i :: 0 <= i < k ==> cfg.Accepts(posts + i, q[i])) &&
            (k < |q| ==> !cfg.Accepts(posts + k, q[k]))
    decreases q
  {
    if q != [] && cfg.Accepts(posts, q[0]) {
      AcceptCountExact(cfg, posts + 1, q[1..]);
      forall i | 0 <= i < AcceptCount(cfg, posts, q)
        ensures cfg.Accepts(posts + i, q[i])
      {
        if i > 0 {
          assert cfg.Accepts(posts + 1 + (i - 1), q[1..][i - 1]);
        }
      }
    }
  }

  /** The state in which the first `k` queued bodies have been accepted. */
  function Delivered(s: State, k: nat): State
    requires k <= |s.queue|
  {
    s.(queue := s.queue[k..], posts := s.posts + k, acked := s.acked + s.queue[..k])
  }

  lemma DeliveredNext(s: State, k: nat)
    requires 1 <= k <= |s.queue|
    ensures Delivered(Ack(Pop(s), s.queue[0]), k - 1) == Delivered(s, k)
  {
  }

  lemma {:induction false} DrainIsDelivered(cfg: Config, s: State)
    ensures var k := AcceptCount(cfg, s.posts, s.queue);
            Drain(cfg, s) == if k == |s.queue| then Delivered(s, k)
                             else Enqueue(cfg, Pop(Delivered(s, k)), s.queue[k])
    decreases |s.queue|
  {
    hide Enqueue;
    var k := AcceptCount(cfg, s.posts, s.queue);
    if k == 0 {
      assert Delivered(s, 0) == s by {
        assert s.acked + s.queue[..0] == s.acked;
        assert s.queue[0..] == s.queue;
      }
    } else {
      var next := Ack(Pop(s), s.queue[0]);
      DrainIsDelivered(cfg, next);
      DeliveredNext(s, k);
    }
  }

  lemma DrainIsExact(cfg: Config, s: State) returns (k: nat, e: nat)
    ensures DrainEffect(cfg, s, Drain(cfg, s), k, e)
  {
    k, e := AcceptCount(cfg, s.posts, s.queue), 0;
    AcceptCountExact(cfg, s.posts, s.queue);
    DrainIsDelivered(cfg, s);
    if k < |s.queue| {
      var rest := s.queue[k + 1..];
      e := Fifo.EvictCount(rest, cfg.size, s.other, cfg.limit);
      Fifo.EvictNothing(rest, cfg.size, s.other, cfg.limit);
      assert Pop(Delivered(s, k)).queue == rest;
    }
  }

  /** Every acknowledged body was answered with a status below 400 by one of the POSTs so far. */
  ghost predicate AcksEarned(cfg: Config, s: State)
  {
    forall b :: b in s.acked ==>
      exists n: nat :: n < s.posts && cfg.exchange(n, b).Answered? && cfg.exchange(n, b).status < 400
  }

  lemma SendBatchKeepsAcksEarned(cfg: Config, s: State)
    requires AcksEarned(cfg, s)
    ensures AcksEarned(cfg, SendBatch(cfg, s))
  {
  }

  lemma {:induction false} DrainKeepsAcksEarned(cfg: Config, s: State)
    requires AcksEarned(cfg, s)
    ensures AcksEarned(cfg, Drain(cfg, s))
    decreases |s.queue|
  {
    if s.queue != [] && cfg.Accepts(s.posts, s.queue[0]) {
      DrainKeepsAcksEarned(cfg, Ack(Pop(s), s.queue[0]));
    }
  }

  /** Over every run nothing is taken as delivered that no POST delivered. */
  lemma {:induction false} RunKeepsAcksEarned(cfg: Config, s: State, inputs: seq<Input>)
    requires AcksEarned(cfg, s)
    ensures AcksEarned(cfg, Run(cfg, s, inputs))
    decreases |inputs|
  {
    if inputs != [] {
      var before, input := Run(cfg, s, inputs[..|inputs| - 1]), inputs[|inputs| - 1];
      RunKeepsAcksEarned(cfg, s, inputs[..|inputs| - 1]);
      match input
      case Receive(e) =>
        SendBatchKeepsAcksEarned(cfg, Grow(before, e));
      case Tick =>
        SendBatchKeepsAcksEarned(cfg, before);
        DrainKeepsAcksEarned(cfg, if before.batch != [] then SendBatch(cfg, before) else before);
    }
  }

  lemma {:induction false} DrainKeepsAcked(cfg: Config, s: State)
    ensures s.acked <= Drain(cfg, s).acked
    decreases |s.queue|
  {
    if s.queue != [] && cfg.Accepts(s.posts, s.queue[0]) {
      DrainKeepsAcked(cfg, Ack(Pop(s), s.queue[0]));
    }
  }

  /** The answer to the oldest body decides: a status below 400 takes it off the queue for good,
      any other status and any failure puts it back as the newest. */
  lemma AnswerDecides(cfg: Config, s: State)
    requires s.queue != []
    ensures var body, t := s.queue[0], Drain(cfg, s);
            match cfg.exchange(s.posts, body)
            case Answered(status) =>
              if status < 400 then s.acked + [body] <= t.acked
              else t.acked == s.acked && t.queue != [] && t.queue[|t.queue| - 1] == body
            case _ => t.acked == s.acked && t.queue != [] && t.queue[|t.queue| - 1] == body
  {
    var body := s.queue[0];
    if cfg.Accepts(s.posts, body) {
      DrainKeepsAcked(cfg, Ack(Pop(s), body));
    }
  }

  /** What a tick does with the batch, before it drains: nothing if there is none, else one POST,
      whose envelope is delivered or becomes the newest queued body. */
  ghost predicate BatchEffect(cfg: Config, s: State, u: State)
  {
    if s.batch == [] then u == s
    else
      var body := Envelope(cfg.deviceId, cfg.stamp(s.posts), s.batch);
      var k := Fifo.EvictCount(s.queue, cfg.size, s.other, cfg.limit);
      u.batch == [] && u.posts == s.posts + 1 && u.sent == s.sent + [s.batch] &&
      u.received == s.received && u.other == s.other &&
      if cfg.exchange(s.posts, body).Answered? && cfg.exchange(s.posts, body).status < 400
      then u.acked == s.acked + [body] && u.queue == s.queue && u.evicted == s.evicted
      else u.acked == s.acked && u.queue == s.queue[k..] + [body] && u.evicted == s.evicted + s.queue[..k]
  }

  /** A tick sends the batch and then drains the queue, a refused batch included. */
  lemma TickIsExact(cfg: Config, s: State) returns (u: State, k: nat, e: nat)
    ensures BatchEffect(cfg, s, u) && DrainEffect(cfg, u, Step(cfg, s, Tick), k, e)
    ensures Step(cfg, s, Tick).batch == []
  {
    u := if s.batch != [] then SendBatch(cfg, s) else s;
    k, e := DrainIsExact(cfg, u);
    DrainFrame(cfg, u);
  }

  /** When every POST succeeds, one tick empties batch and queue and delivers the batch, then the
      queue, in order. */
  lemma OneTickDeliversAll(cfg: Config, s: State)
    requires forall n: nat, b :: n >= s.posts ==> cfg.Accepts(n, b)
    ensures var t := Step(cfg, s, Tick);
            t.batch == [] && t.queue == [] && t.evicted == s.evicted &&
            t.acked == s.acked +
                       (if s.batch == [] then [] else [Envelope(cfg.deviceId, cfg.stamp(s.posts), s.batch)]) + s.queue
  {
    var u, k, e := TickIsExact(cfg, s);
    assert s.batch != [] ==> cfg.Accepts(s.posts, Envelope(cfg.deviceId, cfg.stamp(s.posts), s.batch));
    assert u.queue[..|u.queue|] == u.queue;
    assert s.acked + [] == s.acked;
  }

  // ----- the byte bound over runs of the sender

  /** Everything in the queue but its newest body fits the limit. */
  ghost predicate AllButNewestFit(cfg: Config, s: State)
  {
    s.queue != [] &&
    (|s.queue| == 1 || s.other + Fifo.Sum(s.queue[..|s.queue| - 1], cfg.size) <= cfg.limit)
  }

  /** Bodies have only been taken from the front of the queue. */
  ghost predicate TakenFrom(q: seq<Body>, s: State)
  {
    exists k :: 0 <= k <= |q| && s.queue == q[k..]
  }

  /** The queue is what is left of `q`, or all but its newest body fit the limit. */
  ghost predicate Bounded(cfg: Config, q: seq<Body>, s: State)
  {
    TakenFrom(q, s) || AllButNewestFit(cfg, s)
  }

  lemma EnqueueFits(cfg: Config, s: State, body: Body)
    ensures AllButNewestFit(cfg, Enqueue(cfg, s, body))
  {
    var kept := Fifo.Survivors(s.queue, cfg.size, s.other, cfg.limit);
    Fifo.SurvivorsFit(s.queue, cfg.size, s.other, cfg.limit);
    assert (kept + [body])[..|kept|] == kept;
  }

  lemma PopKeepsBounded(cfg: Config, q: seq<Body>, s: State)
    requires s.queue != [] && Bounded(cfg, q, s)
    ensures Bounded(cfg, q, Pop(s))
  {
    var t := Pop(s);
    if TakenFrom(q, s) {
      var k :| 0 <= k <= |q| && s.queue == q[k..];
      assert t.queue == q[k + 1..];
    } else if t.queue == [] {
      assert t.queue == q[|q|..];
    } else {
      var front := s.queue[..|s.queue| - 1];
      assert t.queue[..|t.queue| - 1] == front[1..];
      Fifo.SumSplit(front, 1, cfg.size);
    }
  }

  lemma SendBatchKeepsBounded(cfg: Config, q: seq<Body>, s: State)
    requires Bounded(cfg, q, s)
    ensures Bounded(cfg, q, SendBatch(cfg, s))
  {
    EnqueueFits(cfg, TakeBatch(s), Envelope(cfg.deviceId, cfg.stamp(s.posts), s.batch));
  }

  lemma {:induction false} DrainKeepsBounded(cfg: Config, q: seq<Body>, s: State)
    requires Bounded(cfg, q, s)
    ensures Bounded(cfg, q, Drain(cfg, s))
    decreases |s.queue|
  {
    if s.queue != [] {
      if cfg.Accepts(s.posts, s.queue[0]) {
        PopKeepsBounded(cfg, q, s);
        DrainKeepsBounded(cfg, q, Ack(Pop(s), s.queue[0]));
      } else {
        EnqueueFits(cfg, Pop(s), s.queue[0]);
      }
    }
  }

  lemma {:induction false} RunKeepsBounded(cfg: Config, s: State, inputs: seq<Input>)
    ensures Bounded(cfg, s.queue, Run(cfg, s, inputs))
    decreases |inputs|
  {
    hide Bounded, SendBatch, Drain;
    if inputs == [] {
      assert Bounded(cfg, s.queue, s) by {
        NothingTaken(cfg, s);
      }
    } else {
      var before, input := Run(cfg, s, inputs[..|inputs| - 1]), inputs[|inputs| - 1];
      RunKeepsBounded(cfg, s, inputs[..|inputs| - 1]);
      match input
      case Receive(e) =>
        GrowKeepsBounded(cfg, s.queue, before, e);
        SendBatchKeepsBounded(cfg, s.queue, Grow(before, e));
      case Tick =>
        SendBatchKeepsBounded(cfg, s.queue, before);
        DrainKeepsBounded(cfg, s.queue, if before.batch != [] then SendBatch(cfg, before) else before);
    }
  }

  lemma NothingTaken(cfg: Config, s: State)
    ensures Bounded(cfg, s.queue, s)
  {
    assert s.queue[0..] == s.queue;
  }

  lemma GrowKeepsBounded(cfg: Config, q: seq<Body>, s: State, e: Event)
    requires Bounded(cfg, q, s)
    ensures Bounded(cfg, q, Grow(s, e))
  {
  }

  /** Over every run, and after shutdown, the queue is what is left of the initial one, or its
      bytes are at most the limit and its newest body, whatever was there and was answered. */
  lemma RunBytesBounded(cfg: Config, s: State, inputs: seq<Input>)
    ensures var t := Run(cfg, s, inputs);
            TakenFrom(s.queue, t) || BytesFit(cfg, t)
    ensures var t := Shutdown(cfg, Run(cfg, s, inputs));
            TakenFrom(s.queue, t) || BytesFit(cfg, t)
  {
    var t := Run(cfg, s, inputs);
    RunKeepsBounded(cfg, s, inputs);
    if AllButNewestFit(cfg, t) {
      FitInBytes(cfg, t);
    }
    if t.batch != [] {
      EnqueueFits(cfg, t.(batch := []), BareArray(t.batch));
      FitInBytes(cfg, Shutdown(cfg, t));
    }
  }

  ghost predicate BytesFit(cfg: Config, s: State)
  {
    s.queue != [] && Fifo.Sum(s.queue, cfg.size) <= Max(0, cfg.limit) + cfg.size(s.queue[|s.queue| - 1])
  }

  lemma FitInBytes(cfg: Config, s: State)
    requires AllButNewestFit(cfg, s)
    ensures BytesFit(cfg, s)
  {
    var q, n := s.queue, |s.queue| - 1;
    Fifo.SumSplit(q, n, cfg.size);
    assert q[n..] == [q[n]];
    assert Fifo.Sum([q[n]], cfg.size) == cfg.size(q[n]) + Fifo.Sum([q[n]][1..], cfg.size);
    if n == 0 {
      assert q[..n] == [];
    }
  }

  // ----- delivery despite rejected bodies

  function DrainTimes(cfg: Config, s: State, n: nat): State
    decreases n
  {
    if n == 0 then s else DrainTimes(cfg, Drain(cfg, s), n - 1)
  }

  /** From POST number `posts` on, the server's answer to each of `bodies` depends on the body
      alone. */
  ghost predicate Fixed(cfg: Config, posts: nat, bodies: seq<Body>, accepts: Body -> bool)
  {
    forall n: nat, b :: n >= posts && b in bodies ==> cfg.Accepts(n, b) == accepts(b)
  }

  lemma FixedLater(cfg: Config, s: State, t: State, accepts: Body -> bool)
    requires Fixed(cfg, s.posts, s.queue, accepts)
    requires s.posts <= t.posts && forall b :: b in t.queue ==> b in s.queue
    ensures Fixed(cfg, t.posts, t.queue, accepts)
  {
  }

  function Select(q: seq<Body>, p: Body -> bool): seq<Body>
  {
    if q == [] then [] else (if p(q[0]) then [q[0]] else []) + Select(q[1..], p)
  }

  function Rotate(q: seq<Body>): seq<Body>
  {
    if q == [] then [] else q[1..] + [q[0]]
  }

  lemma {:induction false} SelectAll(q: seq<Body>, p: Body -> bool)
    requires forall b :: b in q ==> p(b)
    ensures Select(q, p) == q
  {
    if q != [] {
      SelectAll(q[1..], p);
    }
  }

  lemma {:induction false} SelectNone(q: seq<Body>, p: Body -> bool)
    requires forall b :: b in q ==> !p(b)
    ensures Select(q, p) == []
  {
    if q != [] {
      SelectNone(q[1..], p);
    }
  }

  /** A queue splits at its first refused body. */
  lemma {:induction false} SelectSplit(q: seq<Body>, k: nat, accepts: Body -> bool)
    requires k < |q| && !accepts(q[k]) && forall i :: 0 <= i < k ==> accepts(q[i])
    ensures Select(q, accepts) == q[..k] + Select(q[k + 1..], accepts)
    ensures Select(q, b => !accepts(b)) == [q[k]] + Select(q[k + 1..], b => !accepts(b))
  {
    if k > 0 {
      SelectSplit(q[1..], k - 1, accepts);
      assert q[1..][k..] == q[k + 1..];
      assert q[..k] == [q[0]] + q[1..][..k - 1];
    }
  }

  /** One drain of a queue that fits the limit, under a fixed verdict. */
  lemma FittingDrain(cfg: Config, s: State, accepts: Body -> bool) returns (k: nat)
    requires Fixed(cfg, s.posts, s.queue, accepts)
    requires s.other + Fifo.Sum(s.queue, cfg.size) <= cfg.limit
    ensures k <= |s.queue| && (forall i :: 0 <= i < k ==> accepts(s.queue[i]))
    ensures k < |s.queue| ==> !accepts(s.queue[k])
    ensures var q, t := s.queue, Drain(cfg, s);
            t.acked == s.acked + q[..k] && t.evicted == s.evicted && t.other == s.other &&
            t.posts >= s.posts && t.queue == if k == |q| then [] else q[k + 1..] + [q[k]]
  {
    var q, e := s.queue, 0;
    k, e := DrainIsExact(cfg, s);
    DrainFrame(cfg, s);
    forall i | 0 <= i < k
      ensures accepts(q[i])
    {
      assert cfg.Accepts(s.posts + i, q[i]);
    }
    if k < |q| {
      Fifo.SumSplit(q, k + 1, cfg.size);
      assert e == 0;
      assert q[k + 1..][0..] == q[k + 1..];
      assert s.evicted + q[k + 1..][..0] == s.evicted;
    }
  }

  /** One drain of `x + y`, where `y` is already known to be refused. */
  lemma DrainRound(cfg: Config, s: State, accepts: Body -> bool, x: seq<Body>, y: seq<Body>)
      returns (k: nat)
    requires Fixed(cfg, s.posts, s.queue, accepts) && s.queue == x + y
    requires forall b :: b in y ==> !accepts(b)
    requires s.other + Fifo.Sum(s.queue, cfg.size) <= cfg.limit
    ensures k <= |x| && forall i :: 0 <= i < k ==> accepts(x[i])
    ensures var t := Drain(cfg, s);
            t.acked == s.acked + x[..k] && t.evicted == s.evicted && t.other == s.other &&
            t.posts >= s.posts &&
            if k < |x| then !accepts(x[k]) && t.queue == x[k + 1..] + (y + [x[k]])
            else t.queue == Rotate(y)
  {
    k := FittingDrain(cfg, s, accepts);
    if y != [] {
      assert (x + y)[|x|] == y[0] && y[0] in y;
    }
    assert forall i :: 0 <= i < |x| ==> x[i] == (x + y)[i];
    SliceConcat(x, y, k);
  }

  lemma SliceConcat(x: seq<Body>, y: seq<Body>, k: nat)
    requires k <= |x|
    ensures (x + y)[..k] == x[..k]
    ensures k < |x| ==> (x + y)[k + 1..] + [(x + y)[k]] == x[k + 1..] + (y + [x[k]])
    ensures k == |x| && y != [] ==> (x + y)[k + 1..] + [(x + y)[k]] == Rotate(y)
  {
  }

  lemma RoundBytes(x: seq<Body>, y: seq<Body>, k: nat, size: Body -> nat)
    requires k < |x|
    ensures Fifo.Sum(x[k + 1..] + (y + [x[k]]), size) <= Fifo.Sum(x + y, size)
  {
    Fifo.SumAppend(x, y, size);
    Fifo.SumAppend(x[k + 1..], y + [x[k]], size);
    Fifo.SumAppend(y, [x[k]], size);
    Fifo.SumSplit(x, k, size);
    Fifo.SumSplit(x[k..], 1, size);
    assert x[k..][..1] == [x[k]] && x[k..][1..] == x[k + 1..];
  }

  lemma Associative(a: seq<Body>, b: seq<Body>, c: seq<Body>)
    ensures a + b + c == a + (b + c)
  {
  }

  lemma {:induction false} DeliverRounds(cfg: Config, s: State, accepts: Body -> bool,
                                         x: seq<Body>, y: seq<Body>, n: nat)
    requires Fixed(cfg, s.posts, s.queue, accepts) && s.queue == x + y
    requires forall b :: b in y ==> !accepts(b)
    requires s.other + Fifo.Sum(s.queue, cfg.size) <= cfg.limit
    requires |Select(x, b => !accepts(b))| == n
    ensures var t := DrainTimes(cfg, s, n + 1);
            t.acked == s.acked + Select(x, accepts) && t.evicted == s.evicted &&
            t.queue == Rotate(y + Select(x, b => !accepts(b)))
    decreases n
  {
    hide Drain, Fixed, Fifo.Sum;
    var rejects := b => !accepts(b);
    var k := DrainRound(cfg, s, accepts, x, y);
    var t := Drain(cfg, s);
    if k == |x| {
      assert forall b :: b in x ==> accepts(b);
      SelectAll(x, accepts);
      SelectNone(x, rejects);
      assert x[..k] == x && y + [] == y;
      assert DrainTimes(cfg, t, 0) == t;
    } else {
      SelectSplit(x, k, accepts);
      RoundBytes(x, y, k, cfg.size);
      assert x[k] in x;
      FixedLater(cfg, s, t, accepts);
      DeliverRounds(cfg, t, accepts, x[k + 1..], y + [x[k]], n - 1);
      Associative(y, [x[k]], Select(x[k + 1..], rejects));
      Associative(s.acked, x[..k], Select(x[k + 1..], accepts));
    }
  }

  /** With `p` refused bodies in a queue that fits the limit, `p + 1` drains deliver every
      acceptable body exactly once, in order, and leave the refused ones, rotated by one. */
  lemma DeliveryDespiteRejections(cfg: Config, s: State, accepts: Body -> bool)
    requires Fixed(cfg, s.posts, s.queue, accepts)
    requires s.other + Fifo.Sum(s.queue, cfg.size) <= cfg.limit
    ensures var refused := Select(s.queue, b => !accepts(b));
            var t := DrainTimes(cfg, s, |refused| + 1);
            t.acked == s.acked + Select(s.queue, accepts) &&
            t.queue == Rotate(refused) && t.evicted == s.evicted
  {
    assert s.queue + [] == s.queue;
    var refused := Select(s.queue, b => !accepts(b));
    assert [] + refused == refused;
    DeliverRounds(cfg, s, accepts, s.queue, [], |refused|);
  }

  function Ticks(n: nat): (inputs: seq<Input>)
    ensures |inputs| == n
  {
    if n == 0 then [] else Ticks(n - 1) + [Tick]
  }

  lemma {:induction false} DrainTimesLast(cfg: Config, s: State, n: nat)
    ensures DrainTimes(cfg, s, n + 1) == Drain(cfg, DrainTimes(cfg, s, n))
    decreases n
  {
    if n > 0 {
      DrainTimesLast(cfg, Drain(cfg, s), n - 1);
    }
  }

  lemma {:induction false} IdleTicksDrain(cfg: Config, s: State, n: nat)
    requires s.batch == []
    ensures Run(cfg, s, Ticks(n)) == DrainTimes(cfg, s, n)
    ensures Run(cfg, s, Ticks(n)).batch == []
  {
    if n > 0 {
      IdleTicksDrain(cfg, s, n - 1);
      DrainTimesLast(cfg, s, n - 1);
      assert n - 1 + 1 == n;
      assert Ticks(n)[..n - 1] == Ticks(n - 1);
      DrainFrame(cfg, DrainTimes(cfg, s, n - 1));
    }
  }

  /** The same for the running sender: `p + 1` ticks with nothing arriving empty the queue of
      everything the server takes, although every tick stops at the first refused body. */
  lemma IdleTicksDeliver(cfg: Config, s: State, accepts: Body -> bool)
    requires Fixed(cfg, s.posts, s.queue, accepts) && s.batch == []
    requires s.other + Fifo.Sum(s.queue, cfg.size) <= cfg.limit
    ensures var refused := Select(s.queue, b => !accepts(b));
            var t := Run(cfg, s, Ticks(|refused| + 1));
            t.acked == s.acked + Select(s.queue, accepts) && t.queue == Rotate(refused)
  {
    DeliveryDespiteRejections(cfg, s, accepts);
    IdleTicksDrain(cfg, s, |Select(s.queue, b => !accepts(b))| + 1);
  }
}
