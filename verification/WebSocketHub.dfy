/** The WebSocket connection manager: channels of sockets, and broadcasts that take a snapshot,
    send without holding the lock, and then remove the sockets that failed. */
module WebSocketHub {

  type Socket = nat
  type Channels = map<string, set<Socket>>

  // ----- the sections under the lock

  function Members(c: Channels, ch: string): set<Socket>
  {
    if ch in c then c[ch] else {}
  }

  function Join(c: Channels, ws: Socket, ch: string): Channels
  {
    c[ch := Members(c, ch) + {ws}]
  }

  /** Discarding from a channel that does not exist creates none. */
  function Leave(c: Channels, ws: Socket, ch: string): Channels
  {
    if ch in c then c[ch := c[ch] - {ws}] else c
  }

  function LeaveAll(c: Channels, dead: seq<Socket>, ch: string): Channels
    decreases |dead|
  {
    if dead == [] then c else Leave(LeaveAll(c, dead[..|dead| - 1], ch), dead[|dead| - 1], ch)
  }

  lemma {:induction false} LeaveAllMembers(c: Channels, dead: seq<Socket>, ch: string, at: string)
    ensures Members(LeaveAll(c, dead, ch), at) ==
            if at == ch then Members(c, ch) - (set ws | ws in dead) else Members(c, at)
    decreases |dead|
  {
    if dead != [] {
      var n := |dead| - 1;
      LeaveAllMembers(c, dead[..n], ch, at);
      assert dead == dead[..n] + [dead[n]];
    }
  }

  predicate Distinct(q: seq<Socket>)
  {
    forall i, j :: 0 <= i < j < |q| ==> q[i] != q[j]
  }

  /** `order` lists the set `s`, each element once. */
  ghost predicate Enumerates(order: seq<Socket>, s: set<Socket>)
  {
    Distinct(order) && forall ws :: ws in order <==> ws in s
  }

  // ----- any number of broadcasts, interleaved with connects and disconnects

  /** One broadcast: the snapshot, how many sends have been attempted, and which failed. */
  datatype Task = Task(channel: string, targets: seq<Socket>, next: nat, dead: seq<Socket>, done: bool)

  datatype State = State(channels: Channels, tasks: seq<Task>)

  datatype Step =
    | Connect(ws: Socket, ch: string)
    | Disconnect(ws: Socket, ch: string)
    | Snapshot(ch: string, order: seq<Socket>)
    | Send(task: nat, ok: bool)
    | Cleanup(task: nat)

  /** Whether the step can be taken in this state. */
  ghost predicate Enabled(s: State, step: Step)
  {
    match step
    case Connect(_, _) => true
    case Disconnect(_, _) => true
    case Snapshot(ch, order) => Enumerates(order, Members(s.channels, ch))
    case Send(t, _) => t < |s.tasks| && s.tasks[t].next < |s.tasks[t].targets|
    case Cleanup(t) => t < |s.tasks| && s.tasks[t].next == |s.tasks[t].targets| && !s.tasks[t].done
  }

  /** A step that is not enabled has no effect. */
  ghost function Next(s: State, step: Step): State
  {
    if !Enabled(s, step) then s
    else
      match step
      case Connect(ws, ch) => s.(channels := Join(s.channels, ws, ch))
      case Disconnect(ws, ch) => s.(channels := Leave(s.channels, ws, ch))
      case Snapshot(ch, order) => s.(tasks := s.tasks + [Task(ch, order, 0, [], false)])
      case Send(t, ok) =>
        var task := s.tasks[t];
        var dead := if ok then task.dead else task.dead + [task.targets[task.next]];
        s.(tasks := s.tasks[t := task.(next := task.next + 1, dead := dead)])
      case Cleanup(t) =>
        var task := s.tasks[t];
        State(LeaveAll(s.channels, task.dead, task.channel), s.tasks[t := task.(done := true)])
  }

  const NO_CONNECTIONS: Channels := map["alerts" := {}, "devices" := {}, "telemetry" := {}]

  ghost function Run(trace: seq<Step>): State
    decreases |trace|
  {
    if trace == [] then State(NO_CONNECTIONS, [])
    else Next(Run(trace[..|trace| - 1]), trace[|trace| - 1])
  }

  /** The sockets to which broadcast `t` has attempted a send, in order. */
  ghost function Attempts(trace: seq<Step>, t: nat): seq<Socket>
    decreases |trace|
  {
    if trace == [] then []
    else
      var front, last := trace[..|trace| - 1], trace[|trace| - 1];
      var s := Run(front);
      if last.Send? && last.task == t && Enabled(s, last)
      then Attempts(front, t) + [s.tasks[t].targets[s.tasks[t].next]]
      else Attempts(front, t)
  }

  /** Those of them whose send raised. */
  ghost function Failures(trace: seq<Step>, t: nat): seq<Socket>
    decreases |trace|
  {
    if trace == [] then []
    else
      var front, last := trace[..|trace| - 1], trace[|trace| - 1];
      var s := Run(front);
      if last.Send? && last.task == t && !last.ok && Enabled(s, last)
      then Failures(front, t) + [s.tasks[t].targets[s.tasks[t].next]]
      else Failures(front, t)
  }

  /** Step `k` is the snapshot with which broadcast `t` begins. */
  ghost predicate Begins(trace: seq<Step>, k: nat, t: nat)
  {
    k < |trace| && trace[k].Snapshot? && Enabled(Run(trace[..k]), trace[k]) && |Run(trace[..k]).tasks| == t
  }

  lemma NoAttemptsYet(trace: seq<Step>, t: nat)
    requires t >= |Run(trace).tasks|
    ensures Attempts(trace, t) == [] && Failures(trace, t) == []
    decreases |trace|
  {
    if trace != [] {
      NoAttemptsYet(trace[..|trace| - 1], t);
    }
  }

  /** What broadcast `t` keeps agrees with the recorded sends. */
  ghost predicate Recorded(trace: seq<Step>, t: nat, task: Task)
  {
    task.next <= |task.targets| && Attempts(trace, t) == task.targets[..task.next] &&
    task.dead == Failures(trace, t) && (task.done ==> task.next == |task.targets|)
  }

  lemma TaskStep(trace: seq<Step>, t: nat)
    requires trace != []
    requires var front := trace[..|trace| - 1];
             t < |Run(front).tasks| && Recorded(front, t, Run(front).tasks[t])
    ensures t < |Run(trace).tasks| && Recorded(trace, t, Run(trace).tasks[t])
    ensures var before, after := Run(trace[..|trace| - 1]).tasks[t], Run(trace).tasks[t];
            after.channel == before.channel && after.targets == before.targets
  {
  }

  /** What broadcast `t` has done so far: it was begun by a snapshot of the members of its channel
      at that time, and has attempted a prefix of them. */
  lemma {:induction false} TaskIsItsHistory(trace: seq<Step>, t: nat) returns (k: nat)
    requires t < |Run(trace).tasks|
    ensures Begins(trace, k, t)
    ensures var task := Run(trace).tasks[t];
            task.channel == trace[k].ch && task.targets == trace[k].order && Recorded(trace, t, task)
    decreases |trace|
  {
    var n := |trace| - 1;
    var front := trace[..n];
    if t < |Run(front).tasks| {
      k := TaskIsItsHistory(front, t);
      TaskStep(trace, t);
      assert front[..k] == trace[..k];
    } else {
      k := n;
      NoAttemptsYet(front, t);
    }
  }

  /** A finished broadcast has attempted every socket of its snapshot exactly once and no other;
      sockets that joined later are not touched, nor is one that left later spared. */
  lemma FinishedBroadcast(trace: seq<Step>, t: nat) returns (k: nat)
    requires t < |Run(trace).tasks| && Run(trace).tasks[t].done
    ensures Begins(trace, k, t)
    ensures Enumerates(Attempts(trace, t), Members(Run(trace[..k]).channels, trace[k].ch))
  {
    k := TaskIsItsHistory(trace, t);
    var task := Run(trace).tasks[t];
    assert task.targets[..task.next] == task.targets;
  }

  // ----- who is in a channel

  /** Step `m` takes `ws` out of channel `ch`: it disconnects, or a broadcast on that channel to
      which its send had failed cleans up. */
  ghost predicate Removes(trace: seq<Step>, m: nat, ws: Socket, ch: string)
    requires m < |trace|
  {
    trace[m] == Disconnect(ws, ch) ||
    (trace[m].Cleanup? && Enabled(Run(trace[..m]), trace[m]) &&
     Run(trace[..m]).tasks[trace[m].task].channel == ch &&
     ws in Failures(trace[..m], trace[m].task))
  }

  /** Step `k` added the socket and no later step removed it. */
  ghost predicate AddedFor(trace: seq<Step>, k: nat, ws: Socket, ch: string)
  {
    k < |trace| && trace[k] == Connect(ws, ch) &&
    forall m :: k < m < |trace| ==> !Removes(trace, m, ws, ch)
  }

  lemma StepMembers(trace: seq<Step>, ws: Socket, ch: string)
    requires trace != []
    ensures var n := |trace| - 1;
            ws in Members(Run(trace).channels, ch) <==>
            trace[n] == Connect(ws, ch) ||
            (ws in Members(Run(trace[..n]).channels, ch) && !Removes(trace, n, ws, ch))
  {
    var n := |trace| - 1;
    var s := Run(trace[..n]);
    if trace[n].Cleanup? && Enabled(s, trace[n]) {
      var task := s.tasks[trace[n].task];
      LeaveAllMembers(s.channels, task.dead, task.channel, ch);
      var _ := TaskIsItsHistory(trace[..n], trace[n].task);
    }
  }

  lemma RemovesPrefix(trace: seq<Step>, n: nat, m: nat, ws: Socket, ch: string)
    requires m < n <= |trace|
    ensures Removes(trace[..n], m, ws, ch) == Removes(trace, m, ws, ch)
  {
    assert trace[..n][..m] == trace[..m];
  }

  /** A socket is in a channel exactly when it was added and since then has neither disconnected
      nor been removed by a broadcast to which it had failed. */
  lemma {:induction false} MembershipIsExact(trace: seq<Step>, ws: Socket, ch: string)
    ensures ws in Members(Run(trace).channels, ch) <==> exists k: nat :: AddedFor(trace, k, ws, ch)
    decreases |trace|
  {
    if trace != [] {
      var n := |trace| - 1;
      var front := trace[..n];
      MembershipIsExact(front, ws, ch);
      StepMembers(trace, ws, ch);
      forall m: nat | m < n
        ensures Removes(front, m, ws, ch) == Removes(trace, m, ws, ch)
      {
        RemovesPrefix(trace, n, m, ws, ch);
      }
      if trace[n] == Connect(ws, ch) {
        assert AddedFor(trace, n, ws, ch);
      } else {
        forall k: nat
          ensures AddedFor(trace, k, ws, ch) <==> AddedFor(front, k, ws, ch) && !Removes(trace, n, ws, ch)
        {
        }
      }
    }
  }

  // ----- the manager object

  /** A locked section of another task, run while this one awaits. */
  datatype Other = Joins(ws: Socket, ch: string) | Leaves(ws: Socket, ch: string)

  function Apply(c: Channels, o: Other): Channels
  {
    match o
    case Joins(ws, ch) => Join(c, ws, ch)
    case Leaves(ws, ch) => Leave(c, ws, ch)
  }

  function ApplyAll(c: Channels, others: seq<Other>): Channels
    decreases |others|
  {
    if others == [] then c else Apply(ApplyAll(c, others[..|others| - 1]), others[|others| - 1])
  }

  /** What the other tasks do during the first `n` awaits. */
  function Interleaved(c: Channels, others: nat -> seq<Other>, n: nat): Channels
  {
    if n == 0 then c else ApplyAll(Interleaved(c, others, n - 1), others(n - 1))
  }

  function Failed(targets: seq<Socket>, sends: nat -> bool): seq<Socket>
    decreases |targets|
  {
    if targets == [] then []
    else
      var n := |targets| - 1;
      var front := Failed(targets[..n], sends);
      if sends(n) then front else front + [targets[n]]
  }

  /** Every socket together with every channel it is in. */
  ghost function Pairs(c: Channels): set<(string, Socket)>
  {
    set ch, ws | ch in c && ws in c[ch] :: (ch, ws)
  }

  class ConnectionManager {
    var connections: Channels

    constructor ()
      ensures connections == NO_CONNECTIONS
    {
      connections := NO_CONNECTIONS;
    }

    /** The locked section of `connect`, after the handshake was accepted. */
    method ConnectSocket(ws: Socket, channel: string)
      modifies this
      ensures connections == Join(old(connections), ws, channel)
    {
      if channel !in connections {
        connections := connections[channel := {}];
      }
      connections := connections[channel := connections[channel] + {ws}];
    }

    method DisconnectSocket(ws: Socket, channel: string)
      modifies this
      ensures connections == Leave(old(connections), ws, channel)
    {
      if channel in connections {
        connections := connections[channel := connections[channel] - {ws}];
      }
    }

    /** The snapshot: the members in whatever order the set yields them. */
    method Targets(channel: string) returns (targets: seq<Socket>)
      ensures Enumerates(targets, Members(connections, channel))
    {
      targets := [];
      var rest := Members(connections, channel);
      while rest != {}
        invariant rest <= Members(connections, channel)
        invariant Enumerates(targets, Members(connections, channel) - rest)
        decreases |rest|
      {
        var ws :| ws in rest;
        targets := targets + [ws];
        rest := rest - {ws};
      }
    }

    /** Other tasks run. */
    method Await(others: seq<Other>)
      modifies this
      ensures connections == ApplyAll(old(connections), others)
    {
      var i := 0;
      while i < |others|
        invariant 0 <= i <= |others|
        invariant connections == ApplyAll(old(connections), others[..i])
      {
        assert others[..i + 1][..i] == others[..i];
        match others[i] {
          case Joins(ws, ch) => ConnectSocket(ws, ch);
          case Leaves(ws, ch) => DisconnectSocket(ws, ch);
        }
        i := i + 1;
      }
      assert others[..i] == others;
    }

    /** `sends(i)` is whether the i-th send succeeds; `others(i)` is what the other tasks do while
        it is awaited, and after the last one while the lock is awaited. */
    method Broadcast(channel: string, sends: nat -> bool, others: nat -> seq<Other>) returns (attempted: seq<Socket>)
      modifies this
      ensures Enumerates(attempted, Members(old(connections), channel))
      ensures connections == AfterBroadcast(old(connections), channel, attempted, sends, others)
    {
      hide Enumerates, Members, Leave, ApplyAll;
      var targets := Targets(channel);
      var dead := [];
      attempted := [];
      var i := 0;
      while i < |targets|
        invariant 0 <= i <= |targets| && attempted == targets[..i]
        invariant dead == Failed(targets[..i], sends)
        invariant connections == Interleaved(old(connections), others, i)
      {
        assert targets[..i + 1][..i] == targets[..i];
        attempted := attempted + [targets[i]];
        Await(others(i));
        if !sends(i) {
          dead := dead + [targets[i]];
        }
        i := i + 1;
      }
      assert targets[..i] == targets;

      if |dead| > 0 {
        Await(others(i));
        ghost var before := connections;
        var j := 0;
        while j < |dead|
          invariant 0 <= j <= |dead|
          invariant connections == LeaveAll(before, dead[..j], channel)
        {
          assert dead[..j + 1][..j] == dead[..j];
          DisconnectSocket(dead[j], channel);
          j := j + 1;
        }
        assert dead[..j] == dead;
      }
    }

    /** The sizes of all channels added up. */
    method ActiveCount() returns (count: nat)
      ensures count == |Pairs(connections)|
    {
      count := 0;
      var rest := connections.Keys;
      ghost var seen: set<(string, Socket)> := {};
      while rest != {}
        invariant rest <= connections.Keys
        invariant seen == set p | p in Pairs(connections) && p.0 !in rest
        invariant count == |seen|
        decreases |rest|
      {
        var ch :| ch in rest;
        rest := rest - {ch};
        ghost var here := OnChannel(ch, connections[ch]);
        assert forall p :: p in Pairs(connections) && p.0 == ch <==> p in here;
        assert seen !! here;
        seen := seen + here;
        count := count + |connections[ch]|;
      }
      assert seen == Pairs(connections);
    }
  }

  ghost function OnChannel(ch: string, s: set<Socket>): (r: set<(string, Socket)>)
    ensures |r| == |s|
    ensures forall p :: p in r <==> p.0 == ch && p.1 in s
  {
    if s == {} then {} else
      var ws :| ws in s;
      OnChannel(ch, s - {ws}) + {(ch, ws)}
  }

  lemma JoinPairs(c: Channels, ws: Socket, ch: string)
    ensures Pairs(Join(c, ws, ch)) == Pairs(c) + {(ch, ws)}
  {
  }

  lemma LeavePairs(c: Channels, ws: Socket, ch: string)
    ensures Pairs(Leave(c, ws, ch)) == Pairs(c) - {(ch, ws)}
  {
  }

  /** A connect adds one to the active count unless the socket was in the channel already; a
      disconnect takes one away if it was. */
  lemma ActiveCountChanges(c: Channels, ws: Socket, ch: string)
    ensures |Pairs(Join(c, ws, ch))| == |Pairs(c)| + if ws in Members(c, ch) then 0 else 1
    ensures |Pairs(Leave(c, ws, ch))| == |Pairs(c)| - if ws in Members(c, ch) then 1 else 0
  {
    JoinPairs(c, ws, ch);
    LeavePairs(c, ws, ch);
    assert (ch, ws) in Pairs(c) <==> ws in Members(c, ch);
  }

  // ----- one broadcast of the manager is the run of its steps

  function OtherStep(o: Other): Step
  {
    match o
    case Joins(ws, ch) => Connect(ws, ch)
    case Leaves(ws, ch) => Disconnect(ws, ch)
  }

  function OtherSteps(others: seq<Other>): seq<Step>
    decreases |others|
  {
    if others == [] then [] else OtherSteps(others[..|others| - 1]) + [OtherStep(others[|others| - 1])]
  }

  /** The first `n` sends of broadcast `t`, each after what the other tasks did meanwhile. */
  function SendSteps(t: nat, sends: nat -> bool, others: nat -> seq<Other>, n: nat): seq<Step>
  {
    if n == 0 then []
    else SendSteps(t, sends, others, n - 1) + OtherSteps(others(n - 1)) + [Send(t, sends(n - 1))]
  }

  lemma RunNext(trace: seq<Step>, step: Step)
    ensures Run(trace + [step]) == Next(Run(trace), step)
  {
    assert (trace + [step])[..|trace|] == trace;
  }

  lemma {:induction false} RunOthers(trace: seq<Step>, others: seq<Other>)
    ensures var s, t := Run(trace), Run(trace + OtherSteps(others));
            t == s.(channels := ApplyAll(s.channels, others))
    decreases |others|
  {
    if others == [] {
      assert trace + [] == trace;
    } else {
      var front, last := others[..|others| - 1], others[|others| - 1];
      RunOthers(trace, front);
      RunNext(trace + OtherSteps(front), OtherStep(last));
      assert trace + OtherSteps(others) == trace + OtherSteps(front) + [OtherStep(last)];
    }
  }

  /** Task `t` after `n` of its sends. */
  function Sent(ch: string, order: seq<Socket>, sends: nat -> bool, n: nat): Task
    requires n <= |order|
  {
    Task(ch, order, n, Failed(order[..n], sends), false)
  }

  lemma SendNext(s: State, t: nat, ch: string, order: seq<Socket>, sends: nat -> bool, n: nat)
    requires 1 <= n <= |order| && t < |s.tasks| && s.tasks[t] == Sent(ch, order, sends, n - 1)
    ensures Next(s, Send(t, sends(n - 1))) == s.(tasks := s.tasks[t := Sent(ch, order, sends, n)])
  {
    assert order[..n][..n - 1] == order[..n - 1];
  }

  lemma CleanupNext(s: State, t: nat, ch: string, order: seq<Socket>, sends: nat -> bool)
    requires t < |s.tasks| && s.tasks[t] == Sent(ch, order, sends, |order|)
    ensures Next(s, Cleanup(t)) ==
            State(LeaveAll(s.channels, Failed(order, sends), ch),
                  s.tasks[t := Sent(ch, order, sends, |order|).(done := true)])
  {
    assert order[..|order|] == order;
  }

  lemma JoinSteps(trace: seq<Step>, a: seq<Step>, b: seq<Step>, c: seq<Step>)
    ensures trace + (a + b + c) == trace + a + b + c
  {
  }

  lemma {:induction false} RunSends(trace: seq<Step>, t: nat, ch: string, order: seq<Socket>,
                                    sends: nat -> bool, others: nat -> seq<Other>, n: nat)
    requires n <= |order| && t < |Run(trace).tasks| && Run(trace).tasks[t] == Sent(ch, order, sends, 0)
    ensures var s := Run(trace);
            Run(trace + SendSteps(t, sends, others, n)) ==
            State(Interleaved(s.channels, others, n), s.tasks[t := Sent(ch, order, sends, n)])
  {
    hide Run, Next, Sent, ApplyAll, OtherSteps;
    if n == 0 {
      assert trace + [] == trace;
    } else {
      var s, before := Run(trace), trace + SendSteps(t, sends, others, n - 1);
      RunSends(trace, t, ch, order, sends, others, n - 1);
      RunOthers(before, others(n - 1));
      RunNext(before + OtherSteps(others(n - 1)), Send(t, sends(n - 1)));
      SendNext(Run(before + OtherSteps(others(n - 1))), t, ch, order, sends, n);
      JoinSteps(trace, SendSteps(t, sends, others, n - 1), OtherSteps(others(n - 1)), [Send(t, sends(n - 1))]);
    }
  }

  /** The snapshot, the sends and the cleanup of one broadcast over `order`, as steps of the whole
      system. The wait for the lock happens only if a send failed. */
  function BroadcastSteps(t: nat, ch: string, order: seq<Socket>, sends: nat -> bool, others: nat -> seq<Other>)
    : seq<Step>
  {
    [Snapshot(ch, order)] + SendSteps(t, sends, others, |order|) +
    (if Failed(order, sends) == [] then [] else OtherSteps(others(|order|))) + [Cleanup(t)]
  }

  /** What `ConnectionManager.Broadcast` promises about the channels. */
  function AfterBroadcast(c: Channels, ch: string, order: seq<Socket>, sends: nat -> bool, others: nat -> seq<Other>)
    : Channels
  {
    var dead, n := Failed(order, sends), |order|;
    if dead == [] then Interleaved(c, others, n) else LeaveAll(Interleaved(c, others, n + 1), dead, ch)
  }

  lemma SnapshotNext(s: State, ch: string, order: seq<Socket>, sends: nat -> bool)
    requires Enumerates(order, Members(s.channels, ch))
    ensures Next(s, Snapshot(ch, order)) == s.(tasks := s.tasks + [Sent(ch, order, sends, 0)])
  {
    assert order[..0] == [];
  }

  /** After any trace, one call of `Broadcast` that attempts `order` does to the channels what its
      steps do, and those steps finish the broadcast. */
  lemma BroadcastIsItsSteps(trace: seq<Step>, ch: string, order: seq<Socket>, sends: nat -> bool,
                            others: nat -> seq<Other>)
    requires Enumerates(order, Members(Run(trace).channels, ch))
    ensures var t := |Run(trace).tasks|;
            var after := Run(trace + BroadcastSteps(t, ch, order, sends, others));
            after.channels == AfterBroadcast(Run(trace).channels, ch, order, sends, others) &&
            after.tasks == Run(trace).tasks + [Sent(ch, order, sends, |order|).(done := true)]
  {
    hide Run, Next, Sent, ApplyAll, OtherSteps, SendSteps, Enumerates, Failed;
    var s, n := Run(trace), |order|;
    var t := |s.tasks|;
    var begun := trace + [Snapshot(ch, order)];
    RunNext(trace, Snapshot(ch, order));
    SnapshotNext(s, ch, order, sends);
    RunSends(begun, t, ch, order, sends, others, n);
    var sent := begun + SendSteps(t, sends, others, n);
    var awaited := if Failed(order, sends) == [] then [] else OtherSteps(others(n));
    assert sent + [] == sent;
    RunOthers(sent, others(n));
    RunNext(sent + awaited, Cleanup(t));
    CleanupNext(Run(sent + awaited), t, ch, order, sends);
    assert trace + BroadcastSteps(t, ch, order, sends, others) == sent + awaited + [Cleanup(t)];
  }
}
