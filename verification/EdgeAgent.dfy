/** The edge agent's sender goroutine: batching, store and forward. */
module EdgeAgent {
  import opened Options
  import opened Directory
  import opened DiskQueues
  import opened SenderModel

  class Sender {
    const cfg: Config
    const queue: DiskQueue<Body>
    /** The readings `time.Now()` will give, one for each queue file written. */
    const clock: seq<nat>
    var ticks: nat
    var posts: nat
    var batch: seq<Event>
    ghost var acked: seq<Body>
    ghost var evicted: seq<Body>
    ghost var sent: seq<seq<Event>>
    ghost var received: seq<Event>

    ghost predicate Valid()
      reads this, queue
    {
      cfg.limit == queue.maxBytes && cfg.size == queue.size &&
      GoodClock(clock) && ticks <= |clock| && Ready(queue.disk, clock, ticks)
    }

    ghost function Abstract(): State
      reads this, queue
    {
      State(batch, Contents(queue.disk), OtherBytes(queue.disk, queue.size),
            posts, acked, evicted, sent, received)
    }

    constructor (cfg: Config, queue: DiskQueue<Body>, clock: seq<nat>)
      requires cfg.limit == queue.maxBytes && cfg.size == queue.size
      requires GoodClock(clock) && Ready(queue.disk, clock, 0)
      ensures Valid() && ticks == 0
      ensures this.cfg == cfg && this.queue == queue && this.clock == clock
      ensures Abstract() == State([], Contents(queue.disk), OtherBytes(queue.disk, queue.size), 0, [], [], [], [])
    {
      this.cfg := cfg;
      this.queue := queue;
      this.clock := clock;
      ticks, posts, batch := 0, 0, [];
      acked, evicted, sent, received := [], [], [], [];
    }

    /** One POST to the ingest endpoint: an error if the request cannot be made or sent, if the
        answer cannot be read, or if its status is 400 or above. */
    method Post(body: Body) returns (ok: bool)
      modifies this`posts
      ensures ok == cfg.Accepts(old(posts), body)
      ensures ok <==> exists status :: cfg.exchange(old(posts), body) == Answered(status) && status < 400
      ensures Abstract() == old(Abstract()).(posts := old(posts) + 1)
    {
      var e := cfg.exchange(posts, body);
      posts := posts + 1;
      match e
      case NoRequest => return false;
      case NoResponse => return false;
      case BodyUnreadable => return false;
      case Answered(status) =>
        if status >= 400 {
          return false;
        }
        return true;
    }

    method Store(body: Body)
      requires Valid() && ticks < |clock|
      modifies this`ticks, this`evicted, queue
      ensures Valid() && ticks == old(ticks) + 1
      ensures Abstract() == SenderModel.Enqueue(cfg, old(Abstract()), body)
    {
      hide GoodClock, Contents, OtherBytes;
      ApplyRefines(queue.disk, Fifo.Enq(body), clock, ticks, queue.size, queue.maxBytes);
      evicted := evicted + Contents(queue.disk)[..EvictCount(queue.disk, queue.size, queue.maxBytes)];
      var _ := queue.Enqueue(body, clock[ticks]);
      ticks := ticks + 1;
    }

    /** Posts the batch; a failed batch goes to the disk queue. */
    method SendBatch()
      requires Valid() && ticks < |clock|
      modifies this, queue
      ensures Valid() && old(ticks) <= ticks <= old(ticks) + 1
      ensures Abstract() == SenderModel.SendBatch(cfg, old(Abstract()))
    {
      hide Ready, GoodClock, Contents, OtherBytes;
      var body := Envelope(cfg.deviceId, cfg.stamp(posts), batch);
      var ok := Post(body);
      sent := sent + [batch];
      batch := [];
      if ok {
        acked := acked + [body];
      } else {
        Store(body);
      }
    }

    /** `Dequeue`, seen from the sender. */
    method Take() returns (data: Option<Body>)
      requires Valid()
      modifies queue
      ensures Valid()
      ensures data.None? ==> old(Abstract()).queue == [] && Abstract() == old(Abstract())
      ensures data.Some? ==>
                var q := old(Abstract()).queue;
                q != [] && data.value == q[0] && Abstract() == old(Abstract()).(queue := q[1..])
    {
      hide GoodClock, OtherBytes;
      ghost var disk := queue.disk;
      data := queue.Dequeue();
      if data.Some? {
        ReadyAfterRemoval(disk, {Names(disk)[0]}, clock, ticks);
      }
    }

    /** Posts queued bodies until the queue is empty or a POST fails. */
    method DrainQueue()
      requires Valid() && ticks < |clock|
      modifies this, queue
      ensures Valid() && old(ticks) <= ticks <= old(ticks) + 1
      ensures Abstract() == Drain(cfg, old(Abstract()))
    {
      hide Ready, GoodClock, Contents, OtherBytes;
      while true
        invariant Valid() && ticks == old(ticks)
        invariant Drain(cfg, Abstract()) == Drain(cfg, old(Abstract()))
        decreases |Abstract().queue|
      {
        var data := Take();
        if data.None? {
          return;
        }
        var ok := Post(data.value);
        if !ok {
          Store(data.value);
          return;
        }
        acked := acked + [data.value];
      }
    }

    /** One case of the select statement other than cancellation. */
    method Handle(input: Input)
      requires Valid() && ticks + 1 < |clock|
      modifies this, queue
      ensures Valid() && old(ticks) <= ticks <= old(ticks) + 2
      ensures Abstract() == Step(cfg, old(Abstract()), input)
    {
      hide Ready, GoodClock, Contents, OtherBytes;
      match input
      case Receive(evt) =>
        batch := batch + [evt];
        received := received + [evt];
        if |batch| >= cfg.batchSize {
          SendBatch();
        }
      case Tick =>
        if |batch| > 0 {
          SendBatch();
        }
        DrainQueue();
    }

    /** The cancellation case: what is left of the batch goes to disk as a bare array. */
    method Flush()
      requires Valid() && ticks < |clock|
      modifies this, queue
      ensures Valid()
      ensures Abstract() == Shutdown(cfg, old(Abstract()))
    {
      hide Ready, GoodClock, Contents, OtherBytes;
      if |batch| > 0 {
        var body := BareArray(batch);
        batch := [];
        Store(body);
      }
    }

    /** The select loop: `inputs` are the channel receives and ticks in the order in which they
        win, and the context is cancelled after the last of them. */
    method RunSender(inputs: seq<Input>)
      requires Valid() && ticks + 2 * |inputs| < |clock|
      modifies this, queue
      ensures Valid()
      ensures Abstract() == Shutdown(cfg, SenderModel.Run(cfg, old(Abstract()), inputs))
      ensures Ledger(Abstract()) == Ledger(old(Abstract())) + multiset(Arrivals(inputs))
      ensures batch == []
    {
      hide Ready, GoodClock, Contents, OtherBytes, Step, Shutdown, Ledger;
      ghost var start := Abstract();
      var i := 0;
      while i < |inputs|
        invariant 0 <= i <= |inputs|
        invariant Valid() && old(ticks) <= ticks <= old(ticks) + 2 * i
        invariant Abstract() == SenderModel.Run(cfg, start, inputs[..i])
      {
        assert inputs[..i + 1][..i] == inputs[..i];
        Handle(inputs[i]);
        i := i + 1;
      }
      assert inputs[..i] == inputs;
      RunConserves(cfg, start, inputs);
      ShutdownConserves(cfg, Abstract());
      Flush();
    }
  }
}
