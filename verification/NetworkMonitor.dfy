/** The network monitor: a sliding history of connection counts and the set of known addresses. */
module NetworkMonitor {
  import opened Options

  datatype Address = Address(ip: string, port: int)
  datatype Connection = Connection(status: string, raddr: Option<Address>, laddr: Option<Address>)

  datatype Alert =
    | Spike(current: nat, average: real)
    | SuspiciousPort(localPort: int, remoteIp: string)
    | PortScan(portCount: nat)
    | Burst(newIpCount: nat)

  const SUSPICIOUS_PORTS: set<int> := {4444, 5555, 1337, 31337, 6666, 6667, 8888, 9999, 12345, 65535}
  const HISTORY_MAX: nat := 60

  // ----- what one scan reports

  predicate Counted(c: Connection): (b: bool)
    ensures b ==> c.raddr.Some?
  {
    c.status == "ESTABLISHED" && c.raddr.Some?
  }

  predicate IsSuspicious(port: int)
  {
    port in SUSPICIOUS_PORTS
  }

  function LocalPort(c: Connection): int
  {
    if c.laddr.Some? then c.laddr.value.port else 0
  }

  ghost function RemoteIps(conns: seq<Connection>): set<string>
  {
    set c | c in conns && Counted(c) :: c.raddr.value.ip
  }

  ghost function RemotePorts(conns: seq<Connection>): set<int>
  {
    set c | c in conns && Counted(c) :: c.raddr.value.port
  }

  function SuspiciousAlerts(conns: seq<Connection>): seq<Alert>
    decreases |conns|
  {
    if conns == [] then []
    else
      var front, c := SuspiciousAlerts(conns[..|conns| - 1]), conns[|conns| - 1];
      if Counted(c) && IsSuspicious(LocalPort(c))
      then front + [SuspiciousPort(LocalPort(c), c.raddr.value.ip)]
      else front
  }

  function Sum(h: seq<nat>): nat
    decreases |h|
  {
    if h == [] then 0 else Sum(h[..|h| - 1]) + h[|h| - 1]
  }

  function Average(h: seq<nat>): real
    requires h != []
  {
    Sum(h) as real / |h| as real
  }

  /** The history after one more count; the oldest entry leaves a full window. */
  function Push(h: seq<nat>, count: nat): seq<nat>
  {
    if |h| + 1 > HISTORY_MAX then (h + [count])[1..] else h + [count]
  }

  /** The newest count is more than three times the average of the earlier ones, and above 50. */
  predicate IsSpike(h: seq<nat>)
  {
    |h| >= 5 &&
    var earlier, current := h[..|h| - 1], h[|h| - 1];
    current as real > Average(earlier) * 3.0 && current > 50
  }

  function SpikeAlerts(h: seq<nat>): seq<Alert>
  {
    if IsSpike(h) then [Spike(h[|h| - 1], Average(h[..|h| - 1]))] else []
  }

  /** Alerts for listening ports, for more than 30 remote ports, and for more than 20 addresses
      that were not known. */
  ghost function ConnectionAlerts(conns: seq<Connection>, known: set<string>): seq<Alert>
  {
    var ports, unseen := |RemotePorts(conns)|, |RemoteIps(conns) - known|;
    SuspiciousAlerts(conns) +
    (if ports > 30 then [PortScan(ports)] else []) +
    (if unseen > 20 then [Burst(unseen)] else [])
  }

  /** Everything one scan reports, after `history` was extended by it. */
  ghost function Alerts(history: seq<nat>, conns: seq<Connection>, known: set<string>): seq<Alert>
  {
    SpikeAlerts(history) + ConnectionAlerts(conns, known)
  }

  class NetworkMonitor {
    var history: seq<nat>
    var known: set<string>

    constructor ()
      ensures history == [] && known == {}
    {
      history, known := [], {};
    }

    /** `net` is None when the operating system denies access to the connection table. */
    method DetectAnomalies(net: Option<seq<Connection>>) returns (alerts: seq<Alert>)
      requires |history| <= HISTORY_MAX
      modifies this
      ensures |history| <= HISTORY_MAX
      ensures net.None? ==> alerts == [] && history == old(history) && known == old(known)
      ensures net.Some? ==>
                history == Push(old(history), |net.value|) &&
                known == old(known) + RemoteIps(net.value) &&
                alerts == Alerts(history, net.value, old(known))
    {
      if net.None? {
        return [];
      }
      alerts := DetectSpike(|net.value|);
      var more, ports, newIps := AnalyseConnections(net.value);
      if ports > 30 {
        more := more + [PortScan(ports)];
      }
      if newIps > 20 {
        more := more + [Burst(newIps)];
      }
      alerts := alerts + more;
    }

    /** The part of `detect_anomalies` that maintains the history. */
    method DetectSpike(currentCount: nat) returns (alerts: seq<Alert>)
      requires |history| <= HISTORY_MAX
      modifies this`history
      ensures |history| <= HISTORY_MAX
      ensures history == Push(old(history), currentCount)
      ensures alerts == SpikeAlerts(history)
    {
      history := history + [currentCount];
      if |history| > HISTORY_MAX {
        history := history[1..];
      }
      alerts := [];
      if |history| >= 5 {
        var avg := Average(history[..|history| - 1]);
        if currentCount as real > avg * 3.0 && currentCount > 50 {
          alerts := [Spike(currentCount, avg)];
        }
      }
    }

    /** The loop over the connections: its alerts, the number of remote ports and the number of
        addresses that were not known. */
    method AnalyseConnections(connections: seq<Connection>) returns (alerts: seq<Alert>, ports: nat, unseen: nat)
      modifies this`known
      ensures known == old(known) + RemoteIps(connections)
      ensures alerts == SuspiciousAlerts(connections)
      ensures ports == |RemotePorts(connections)|
      ensures unseen == |RemoteIps(connections) - old(known)|
    {
      hide RemoteIps, RemotePorts, SuspiciousAlerts, Scanned, Counted, IsSuspicious;
      ghost var before := known;
      alerts := [];
      var portCounts: map<int, nat> := map[];
      var newIps: set<string> := {};
      NothingScanned(connections, known);
      assert portCounts.Keys == {};
      var i := 0;
      while i < |connections|
        invariant 0 <= i <= |connections|
        invariant alerts == SuspiciousAlerts(connections[..i])
        invariant Scanned(connections, i, before, known, newIps, portCounts.Keys)
      {
        var conn := connections[i];
        ScanNext(connections, i, before, known, newIps, portCounts.Keys);
        i := i + 1;
        if !Counted(conn) {
          continue;
        }
        var remote := conn.raddr.value;
        var localPort := LocalPort(conn);
        if IsSuspicious(localPort) {
          alerts := alerts + [SuspiciousPort(localPort, remote.ip)];
        }
        if remote.ip !in known {
          newIps := newIps + {remote.ip};
          known := known + {remote.ip};
        }
        ghost var portsBefore := portCounts.Keys;
        portCounts := portCounts[remote.port := 1 + if remote.port in portCounts then portCounts[remote.port] else 0];
        assert portCounts.Keys == portsBefore + {remote.port};
      }
      AllScanned(connections, before, known, newIps, portCounts.Keys);
      assert |portCounts.Keys| == |portCounts|;
      ports, unseen := |portCounts|, |newIps|;
    }
  }

  // ----- the loop of `detect_anomalies`

  /** What the first `i` connections have added to the sets of the loop. */
  ghost predicate Scanned(conns: seq<Connection>, i: nat, before: set<string>, known: set<string>,
                          unseen: set<string>, ports: set<int>)
    requires i <= |conns|
  {
    known == before + RemoteIps(conns[..i]) &&
    unseen == RemoteIps(conns[..i]) - before &&
    ports == RemotePorts(conns[..i])
  }

  lemma NothingScanned(conns: seq<Connection>, before: set<string>)
    ensures Scanned(conns, 0, before, before, {}, {})
    ensures SuspiciousAlerts(conns[..0]) == []
  {
  }

  lemma AllScanned(conns: seq<Connection>, before: set<string>, known: set<string>,
                   unseen: set<string>, ports: set<int>)
    requires Scanned(conns, |conns|, before, known, unseen, ports)
    ensures known == before + RemoteIps(conns) && unseen == RemoteIps(conns) - before
    ensures ports == RemotePorts(conns)
    ensures conns[..|conns|] == conns
  {
    assert conns[..|conns|] == conns;
  }

  lemma ScanNext(conns: seq<Connection>, i: nat, before: set<string>, known: set<string>,
                 unseen: set<string>, ports: set<int>)
    requires i < |conns| && Scanned(conns, i, before, known, unseen, ports)
    ensures !Counted(conns[i]) ==>
              Scanned(conns, i + 1, before, known, unseen, ports) &&
              SuspiciousAlerts(conns[..i + 1]) == SuspiciousAlerts(conns[..i])
    ensures Counted(conns[i]) ==>
              var remote, port := conns[i].raddr.value, LocalPort(conns[i]);
              SuspiciousAlerts(conns[..i + 1]) ==
              (if IsSuspicious(port) then SuspiciousAlerts(conns[..i]) + [SuspiciousPort(port, remote.ip)]
               else SuspiciousAlerts(conns[..i])) &&
              if remote.ip in known then Scanned(conns, i + 1, before, known, unseen, ports + {remote.port})
              else Scanned(conns, i + 1, before, known + {remote.ip}, unseen + {remote.ip}, ports + {remote.port})
  {
    ExtendScan(conns, i);
    assert conns[..i + 1][..i] == conns[..i];
  }

  /** One more connection adds its address and port, if it is counted. */
  lemma ExtendScan(conns: seq<Connection>, i: nat)
    requires i < |conns|
    ensures RemoteIps(conns[..i + 1]) ==
            RemoteIps(conns[..i]) + if Counted(conns[i]) then {conns[i].raddr.value.ip} else {}
    ensures RemotePorts(conns[..i + 1]) ==
            RemotePorts(conns[..i]) + if Counted(conns[i]) then {conns[i].raddr.value.port} else {}
  {
    assert conns[..i + 1] == conns[..i] + [conns[i]];
  }

  // ----- exactly which alerts a scan raises

  /** An established connection from local port `port` to the remote address `ip`. */
  ghost predicate Linked(c: Connection, port: int, ip: string)
  {
    c.status == "ESTABLISHED" && c.raddr.Some? && c.raddr.value.ip == ip &&
    c.laddr.Some? && c.laddr.value.port == port
  }

  lemma SuspiciousLink(c: Connection, a: Alert)
    ensures Counted(c) && IsSuspicious(LocalPort(c)) && a == SuspiciousPort(LocalPort(c), c.raddr.value.ip) <==>
            a.SuspiciousPort? && IsSuspicious(a.localPort) && Linked(c, a.localPort, a.remoteIp)
  {
  }

  ghost predicate AnyLinked(conns: seq<Connection>, port: int, ip: string)
  {
    exists c :: c in conns && Linked(c, port, ip)
  }

  lemma AnyLinkedNext(conns: seq<Connection>, c: Connection, port: int, ip: string)
    ensures AnyLinked(conns + [c], port, ip) <==> AnyLinked(conns, port, ip) || Linked(c, port, ip)
  {
    assert forall d :: d in conns + [c] <==> d in conns || d == c;
  }

  lemma {:induction false} SuspiciousExactly(conns: seq<Connection>, a: Alert)
    ensures a in SuspiciousAlerts(conns) <==>
            a.SuspiciousPort? && IsSuspicious(a.localPort) && AnyLinked(conns, a.localPort, a.remoteIp)
    decreases |conns|
  {
    hide AnyLinked, Linked, IsSuspicious, Counted;
    if conns == [] {
      assert a.SuspiciousPort? ==> !AnyLinked(conns, a.localPort, a.remoteIp) by {
        NoneLinked(a);
      }
    } else {
      var n := |conns| - 1;
      SuspiciousExactly(conns[..n], a);
      assert conns == conns[..n] + [conns[n]];
      SuspiciousLink(conns[n], a);
      if a.SuspiciousPort? {
        AnyLinkedNext(conns[..n], conns[n], a.localPort, a.remoteIp);
      }
    }
  }

  lemma NoneLinked(a: Alert)
    ensures a.SuspiciousPort? ==> !AnyLinked([], a.localPort, a.remoteIp)
  {
  }

  /** The spike test without division; it needs four earlier counts. */
  lemma SpikeTest(h: seq<nat>)
    requires h != []
    ensures var n, c := |h| - 1, h[|h| - 1];
            IsSpike(h) <==> n >= 4 && n * c > 3 * Sum(h[..n]) && c > 50
  {
  }

  lemma AverageExactly(h: seq<nat>, x: real)
    requires h != []
    ensures x == Average(h) <==> x * |h| as real == Sum(h) as real
  {
    Quotient(Sum(h) as real, |h| as real, x);
  }

  lemma Quotient(a: real, n: real, x: real)
    requires n > 0.0
    ensures x == a / n <==> x * n == a
  {
    if x * n == a {
      assert x == x * n / n;
    }
  }

  lemma SpikeExactly(h: seq<nat>, a: Alert)
    ensures a in SpikeAlerts(h) <==>
            a.Spike? && |h| >= 5 && a.current == h[|h| - 1] && a.current > 50 &&
            (|h| - 1) * a.current > 3 * Sum(h[..|h| - 1]) &&
            a.average * (|h| - 1) as real == Sum(h[..|h| - 1]) as real
  {
    hide Average, Sum, IsSpike;
    if |h| >= 5 {
      SpikeTest(h);
      if a.Spike? {
        AverageExactly(h[..|h| - 1], a.average);
      }
    } else {
      TooShort(h);
    }
  }

  lemma TooShort(h: seq<nat>)
    requires |h| < 5
    ensures !IsSpike(h)
  {
  }

  /** What each alert means, in terms of the history, the connections and the known addresses. */
  ghost predicate Warranted(history: seq<nat>, conns: seq<Connection>, known: set<string>, a: Alert)
  {
    match a
    case Spike(current, average) =>
      |history| >= 5 &&
      var n := |history| - 1;
      current == history[n] && current > 50 && n * current > 3 * Sum(history[..n]) &&
      average * n as real == Sum(history[..n]) as real
    case SuspiciousPort(port, ip) =>
      port in {4444, 5555, 1337, 31337, 6666, 6667, 8888, 9999, 12345, 65535} &&
      AnyLinked(conns, port, ip)
    case PortScan(count) =>
      count > 30 &&
      count == |set c | c in conns && c.status == "ESTABLISHED" && c.raddr.Some? :: c.raddr.value.port|
    case Burst(count) =>
      count > 20 &&
      count == |(set c | c in conns && c.status == "ESTABLISHED" && c.raddr.Some? :: c.raddr.value.ip) - known|
  }

  lemma ConnectionAlertsExactly(conns: seq<Connection>, known: set<string>, a: Alert)
    ensures a in ConnectionAlerts(conns, known) <==> !a.Spike? && Warranted([], conns, known, a)
  {
    hide RemotePorts, RemoteIps, SuspiciousAlerts, AnyLinked;
    SuspiciousExactly(conns, a);
    EstablishedExactly(conns);
  }

  lemma EstablishedExactly(conns: seq<Connection>)
    ensures RemotePorts(conns) ==
            set c | c in conns && c.status == "ESTABLISHED" && c.raddr.Some? :: c.raddr.value.port
    ensures RemoteIps(conns) ==
            set c | c in conns && c.status == "ESTABLISHED" && c.raddr.Some? :: c.raddr.value.ip
  {
  }

  /** A scan raises exactly the alerts that are warranted. */
  lemma AlertsExactly(history: seq<nat>, conns: seq<Connection>, known: set<string>, a: Alert)
    ensures a in Alerts(history, conns, known) <==> Warranted(history, conns, known, a)
  {
    hide SpikeAlerts, ConnectionAlerts, Linked;
    SpikeExactly(history, a);
    ConnectionAlertsExactly(conns, known, a);
  }

  // ----- runs of scans

  /** The counts of the scans that were not denied. */
  function Counts(scans: seq<Option<seq<Connection>>>): seq<nat>
    decreases |scans|
  {
    if scans == [] then []
    else
      var front, last := Counts(scans[..|scans| - 1]), scans[|scans| - 1];
      if last.None? then front else front + [|last.value|]
  }

  function PushAll(h: seq<nat>, counts: seq<nat>): seq<nat>
    decreases |counts|
  {
    if counts == [] then h else Push(PushAll(h, counts[..|counts| - 1]), counts[|counts| - 1])
  }

  /** The history after a run of scans from a new monitor. */
  function History(scans: seq<Option<seq<Connection>>>): seq<nat>
  {
    PushAll([], Counts(scans))
  }

  ghost function Ips(scan: Option<seq<Connection>>): set<string>
  {
    if scan.None? then {} else RemoteIps(scan.value)
  }

  /** The known addresses after a run of scans from a new monitor. */
  ghost function Known(scans: seq<Option<seq<Connection>>>): set<string>
    decreases |scans|
  {
    if scans == [] then {} else Known(scans[..|scans| - 1]) + Ips(scans[|scans| - 1])
  }

  /** The alerts of scan `i` of a run. */
  ghost function AlertsAt(scans: seq<Option<seq<Connection>>>, i: nat): seq<Alert>
    requires i < |scans|
  {
    if scans[i].None? then []
    else Alerts(History(scans[..i + 1]), scans[i].value, Known(scans[..i]))
  }

  lemma CountsNext(scans: seq<Option<seq<Connection>>>, net: Option<seq<Connection>>)
    ensures Counts(scans + [net]) == if net.None? then Counts(scans) else Counts(scans) + [|net.value|]
  {
    assert (scans + [net])[..|scans|] == scans;
  }

  lemma PushNext(h: seq<nat>, counts: seq<nat>, c: nat)
    ensures PushAll(h, counts + [c]) == Push(PushAll(h, counts), c)
  {
    assert (counts + [c])[..|counts|] == counts;
  }

  lemma HistoryNext(scans: seq<Option<seq<Connection>>>, net: Option<seq<Connection>>)
    ensures History(scans + [net]) ==
            if net.None? then History(scans) else Push(History(scans), |net.value|)
  {
    hide Push, PushAll, Counts;
    CountsNext(scans, net);
    if net.Some? {
      PushNext([], Counts(scans), |net.value|);
    }
  }

  lemma KnownNext(scans: seq<Option<seq<Connection>>>, net: Option<seq<Connection>>)
    ensures Known(scans + [net]) == Known(scans) + Ips(net)
  {
    hide Ips;
    assert (scans + [net])[..|scans|] == scans;
  }

  lemma AlertsNext(scans: seq<Option<seq<Connection>>>, net: Option<seq<Connection>>)
    ensures AlertsAt(scans + [net], |scans|) ==
            if net.None? then [] else Alerts(History(scans + [net]), net.value, Known(scans))
  {
    hide Alerts, History, Known;
    var all := scans + [net];
    assert all[..|scans|] == scans && all[..|scans| + 1] == all;
  }

  /** What `DetectAnomalies` promises for one scan is the next step of the run. */
  lemma NextScan(scans: seq<Option<seq<Connection>>>, net: Option<seq<Connection>>)
    ensures var all, n := scans + [net], |scans|;
            Known(all) == Known(scans) + Ips(net) &&
            if net.None? then History(all) == History(scans) && AlertsAt(all, n) == []
            else
              History(all) == Push(History(scans), |net.value|) &&
              AlertsAt(all, n) == Alerts(History(all), net.value, Known(scans))
  {
    hide Push, History, AlertsAt, Alerts, Ips, Known;
    HistoryNext(scans, net);
    KnownNext(scans, net);
    AlertsNext(scans, net);
  }

  // ----- how long a spike alert can last

  function Repeat(c: nat, m: nat): (counts: seq<nat>)
    ensures |counts| == m
  {
    seq(m, _ => c)
  }

  function Window(h: seq<nat>): seq<nat>
  {
    if |h| > HISTORY_MAX then h[|h| - HISTORY_MAX..] else h
  }

  /** The history is the last sixty counts. */
  lemma {:induction false} PushAllIsWindow(h: seq<nat>, counts: seq<nat>)
    requires |h| <= HISTORY_MAX
    ensures PushAll(h, counts) == Window(h + counts)
    decreases |counts|
  {
    if counts == [] {
      assert h + counts == h;
    } else {
      var front, c := counts[..|counts| - 1], counts[|counts| - 1];
      PushAllIsWindow(h, front);
      PushWindow(h + front, c);
      assert h + counts == h + front + [c];
    }
  }

  lemma PushWindow(q: seq<nat>, c: nat)
    ensures Push(Window(q), c) == Window(q + [c])
  {
  }

  lemma {:induction false} SumOfTail(h: seq<nat>, c: nat, k: nat)
    requires k <= |h| && forall i :: |h| - k <= i < |h| ==> h[i] == c
    ensures Sum(h) == Sum(h[..|h| - k]) + k * c
  {
    if k == 0 {
      assert h[..|h|] == h;
    } else {
      SumOfTail(h[..|h| - 1], c, k - 1);
      assert h[..|h| - 1][..|h| - k] == h[..|h| - k];
      assert k * c == (k - 1) * c + c;
    }
  }

  lemma Below(c: nat, n: nat, bound: nat)
    requires n <= bound
    ensures n * c <= bound * c
  {
  }

  /** A window that ends in 21 equal counts is no spike. */
  lemma LevelIsNoSpike(w: seq<nat>, c: nat)
    requires 21 <= |w| <= HISTORY_MAX
    requires forall i :: |w| - 21 <= i < |w| ==> w[i] == c
    ensures !IsSpike(w)
  {
    var n := |w| - 1;
    SumOfTail(w[..n], c, 20);
    Below(c, n, 59);
    SpikeTest(w);
  }

  /** Windows that are spikes in `m` consecutive scans at count `c`, starting from history `h`. */
  function SpikeCount(h: seq<nat>, c: nat, m: nat): nat
  {
    if m == 0 then 0
    else SpikeCount(h, c, m - 1) + if IsSpike(PushAll(h, Repeat(c, m))) then 1 else 0
  }

  lemma LevelStops(h: seq<nat>, c: nat, m: nat)
    requires |h| <= HISTORY_MAX && m >= 21
    ensures !IsSpike(PushAll(h, Repeat(c, m)))
  {
    PushAllIsWindow(h, Repeat(c, m));
    LevelIsNoSpike(Window(h + Repeat(c, m)), c);
  }

  lemma {:induction false} LevelSpikes(h: seq<nat>, c: nat, m: nat)
    requires |h| <= HISTORY_MAX
    ensures SpikeCount(h, c, m) <= if m < 20 then m else 20
  {
    if m > 0 {
      LevelSpikes(h, c, m - 1);
      if m >= 21 {
        LevelStops(h, c, m);
      }
    }
  }

  /** Scan `i` raises a spike alert. */
  ghost predicate Spikes(scans: seq<Option<seq<Connection>>>, i: nat)
    requires i < |scans|
  {
    exists a :: a in AlertsAt(scans, i) && a.Spike?
  }

  lemma SpikesExactly(scans: seq<Option<seq<Connection>>>, i: nat)
    requires i < |scans|
    ensures Spikes(scans, i) <==> scans[i].Some? && IsSpike(History(scans[..i + 1]))
  {
    hide Alerts, History, IsSpike;
    if scans[i].Some? {
      var h, conns, known := History(scans[..i + 1]), scans[i].value, Known(scans[..i]);
      SpikeIsRaised(h, conns, known);
    }
  }

  lemma SpikeIsRaised(h: seq<nat>, conns: seq<Connection>, known: set<string>)
    ensures (exists a :: a in Alerts(h, conns, known) && a.Spike?) <==> IsSpike(h)
  {
    hide ConnectionAlerts;
    if IsSpike(h) {
      assert Alerts(h, conns, known)[0].Spike?;
    }
    if a :| a in Alerts(h, conns, known) && a.Spike? {
      ConnectionAlertsExactly(conns, known, a);
    }
  }

  /** The number of scans, from number `from` on, that raise a spike alert. */
  ghost function SpikesSince(scans: seq<Option<seq<Connection>>>, from: nat): nat
    decreases |scans|
  {
    if |scans| <= from then 0
    else
      var n := |scans| - 1;
      SpikesSince(scans[..n], from) + if Spikes(scans, n) then 1 else 0
  }

  /** From scan `from` on every scan that is not denied sees `c` connections. */
  ghost predicate Level(scans: seq<Option<seq<Connection>>>, from: nat, c: nat)
  {
    forall i :: from <= i < |scans| && scans[i].Some? ==> |scans[i].value| == c
  }

  lemma {:induction false} PushAllLength(h: seq<nat>, counts: seq<nat>)
    requires |h| <= HISTORY_MAX
    ensures |PushAll(h, counts)| <= HISTORY_MAX
    decreases |counts|
  {
    if counts != [] {
      PushAllLength(h, counts[..|counts| - 1]);
    }
  }

  /** How many of the scans from `from` on were not denied. */
  function Seen(scans: seq<Option<seq<Connection>>>, from: nat): nat
    requires from <= |scans|
    decreases |scans|
  {
    if |scans| == from then 0
    else Seen(scans[..|scans| - 1], from) + if scans[|scans| - 1].Some? then 1 else 0
  }

  lemma PushRepeat(h: seq<nat>, c: nat, m: nat)
    requires m > 0
    ensures PushAll(h, Repeat(c, m)) == Push(PushAll(h, Repeat(c, m - 1)), c)
  {
    assert Repeat(c, m)[..m - 1] == Repeat(c, m - 1);
  }

  /** During a level, history and spike alerts are those of as many equal counts. */
  lemma {:induction false} LevelRun(scans: seq<Option<seq<Connection>>>, from: nat, c: nat)
    requires from <= |scans| && Level(scans, from, c)
    ensures var h, m := History(scans[..from]), Seen(scans, from);
            History(scans) == PushAll(h, Repeat(c, m)) && SpikesSince(scans, from) == SpikeCount(h, c, m)
    decreases |scans|
  {
    hide History, Push, PushAll, IsSpike, Spikes, Known, AlertsAt;
    if |scans| == from {
      assert scans[..from] == scans;
      NothingPushed(History(scans), c);
    } else {
      var n := |scans| - 1;
      LevelRun(scans[..n], from, c);
      LevelPrefix(scans, from, n);
      HistoryNext(scans[..n], scans[n]);
      SpikesExactly(scans, n);
      if scans[n].Some? {
        PushRepeat(History(scans[..from]), c, Seen(scans, from));
      }
    }
  }

  lemma NothingPushed(h: seq<nat>, c: nat)
    ensures PushAll(h, Repeat(c, 0)) == h
  {
  }

  lemma LevelPrefix(scans: seq<Option<seq<Connection>>>, from: nat, n: nat)
    requires from <= n < |scans| && n == |scans| - 1
    ensures scans[..n][..from] == scans[..from] && scans[..n] + [scans[n]] == scans && scans[..n + 1] == scans
  {
  }

  /** From the 21st scan at one count on there is no spike alert, whatever came before. */
  lemma SpikeStops(scans: seq<Option<seq<Connection>>>, from: nat, c: nat)
    requires from < |scans| && Level(scans, from, c) && Seen(scans, from) >= 21
    ensures !Spikes(scans, |scans| - 1)
  {
    hide PushAll, IsSpike, Spikes, Repeat;
    LevelRun(scans, from, c);
    PushAllLength([], Counts(scans[..from]));
    LevelStops(History(scans[..from]), c, Seen(scans, from));
    SpikesExactly(scans, |scans| - 1);
    assert scans[..|scans| - 1 + 1] == scans;
  }

  /** While the number of connections stays at one level, at most twenty scans raise a spike
      alert, whatever came before and however many scans are denied. */
  lemma AtMostTwentySpikes(scans: seq<Option<seq<Connection>>>, from: nat, c: nat)
    requires from <= |scans| && Level(scans, from, c)
    ensures SpikesSince(scans, from) <= 20
  {
    LevelRun(scans, from, c);
    PushAllLength([], Counts(scans[..from]));
    LevelSpikes(History(scans[..from]), c, Seen(scans, from));
  }

  /** A full window of zeros followed by at most twenty counts above 50 is a spike. */
  lemma RiseIsSpike(w: seq<nat>, c: nat, m: nat)
    requires |w| == HISTORY_MAX && c > 50 && 1 <= m <= 20
    requires forall i :: 0 <= i < 60 - m ==> w[i] == 0
    requires forall i :: 60 - m <= i < 60 ==> w[i] == c
    ensures IsSpike(w)
  {
    SumOfTail(w[..59], c, m - 1);
    SumOfTail(w[..59][..60 - m], 0, 60 - m);
    Below(c, m - 1, 19);
    SpikeTest(w);
  }

  lemma {:induction false} RiseSpikes(c: nat, m: nat)
    requires c > 50 && m <= 20
    ensures SpikeCount(Repeat(0, HISTORY_MAX), c, m) == m
  {
    if m > 0 {
      RiseSpikes(c, m - 1);
      var h := Repeat(0, HISTORY_MAX);
      PushAllIsWindow(h, Repeat(c, m));
      RiseIsSpike(Window(h + Repeat(c, m)), c, m);
    }
  }

  /** `m` scans that each see `c` copies of one connection. */
  function Scans(conn: Connection, c: nat, m: nat): (scans: seq<Option<seq<Connection>>>)
    ensures |scans| == m
  {
    seq(m, _ => Some(seq(c, _ => conn)))
  }

  lemma ScansNext(before: seq<Option<seq<Connection>>>, conn: Connection, c: nat, m: nat)
    requires m > 0
    ensures before + Scans(conn, c, m) == before + Scans(conn, c, m - 1) + [Some(seq(c, _ => conn))]
  {
  }

  lemma {:induction false} ScansCounts(before: seq<Option<seq<Connection>>>, conn: Connection, c: nat, m: nat)
    ensures Counts(before + Scans(conn, c, m)) == Counts(before) + Repeat(c, m)
  {
    hide Counts;
    if m == 0 {
      assert before + Scans(conn, c, m) == before;
    } else {
      hide Scans;
      ScansCounts(before, conn, c, m - 1);
      ScansNext(before, conn, c, m);
      CountsNext(before + Scans(conn, c, m - 1), Some(seq(c, _ => conn)));
      assert Repeat(c, m) == Repeat(c, m - 1) + [c];
    }
  }

  lemma {:induction false} AllSeen(before: seq<Option<seq<Connection>>>, conn: Connection, c: nat, m: nat)
    ensures Seen(before + Scans(conn, c, m), |before|) == m
  {
    if m > 0 {
      AllSeen(before, conn, c, m - 1);
      ScansNext(before, conn, c, m);
      var front := before + Scans(conn, c, m - 1);
      assert (front + [Some(seq(c, _ => conn))])[..|front|] == front;
    }
  }

  /** Twenty is reached: after sixty idle scans every count above 50 alerts twenty times. */
  lemma TwentySpikesReached(conn: Connection, c: nat)
    requires c > 50
    ensures SpikesSince(Scans(conn, 0, 60) + Scans(conn, c, 20), 60) == 20
  {
    var idle, all := Scans(conn, 0, 60), Scans(conn, 0, 60) + Scans(conn, c, 20);
    ScansCounts([], conn, 0, 60);
    ScansCounts(idle, conn, c, 20);
    assert [] + idle == idle && all[..60] == idle;
    PushAllIsWindow([], Repeat(0, 60));
    assert [] + Repeat(0, 60) == Repeat(0, 60);
    LevelRun(all, 60, c);
    AllSeen(idle, conn, c, 20);
    RiseSpikes(c, 20);
  }

  // ----- bursts of new addresses

  ghost function NewAt(scans: seq<Option<seq<Connection>>>, i: nat): set<string>
    requires i < |scans|
  {
    Ips(scans[i]) - Known(scans[..i])
  }

  /** Scan `i` raises a burst alert. */
  ghost predicate Bursts(scans: seq<Option<seq<Connection>>>, i: nat)
    requires i < |scans|
  {
    exists a :: a in AlertsAt(scans, i) && a.Burst?
  }

  /** A scan raises a burst alert exactly when at least 21 addresses are new, and the alert gives
      their number. */
  lemma BurstsExactly(scans: seq<Option<seq<Connection>>>, i: nat)
    requires i < |scans|
    ensures Bursts(scans, i) <==> |NewAt(scans, i)| >= 21
    ensures forall a :: a in AlertsAt(scans, i) && a.Burst? ==> a.newIpCount == |NewAt(scans, i)|
  {
    hide Alerts, History;
    if scans[i].Some? {
      var h, conns, known := History(scans[..i + 1]), scans[i].value, Known(scans[..i]);
      EstablishedExactly(conns);
      AlertsExactly(h, conns, known, Burst(|NewAt(scans, i)|));
      forall a | a in AlertsAt(scans, i) && a.Burst?
        ensures a.newIpCount == |NewAt(scans, i)| && |NewAt(scans, i)| >= 21
      {
        AlertsExactly(h, conns, known, a);
      }
    }
  }

  ghost function BurstCount(scans: seq<Option<seq<Connection>>>): nat
    decreases |scans|
  {
    if scans == [] then 0
    else
      var n := |scans| - 1;
      BurstCount(scans[..n]) + if Bursts(scans, n) then 1 else 0
  }

  /** The scan sees an established connection to `ip`. */
  ghost predicate Sees(scan: Option<seq<Connection>>, ip: string)
  {
    scan.Some? && exists c :: c in scan.value && c.status == "ESTABLISHED" && c.raddr.Some? && c.raddr.value.ip == ip
  }

  /** The known addresses are those established in some scan. */
  lemma {:induction false} KnownIsSeen(scans: seq<Option<seq<Connection>>>, ip: string)
    ensures ip in Known(scans) <==> exists i :: 0 <= i < |scans| && Sees(scans[i], ip)
    decreases |scans|
  {
    if scans != [] {
      var n := |scans| - 1;
      KnownIsSeen(scans[..n], ip);
      assert ip in Ips(scans[n]) <==> Sees(scans[n], ip);
      assert forall i :: 0 <= i < n ==> scans[..n][i] == scans[i];
    }
  }

  /** An address is new in at most one scan. */
  lemma NewSetsDisjoint(scans: seq<Option<seq<Connection>>>, i: nat, j: nat)
    requires i < j < |scans|
    ensures NewAt(scans, i) !! NewAt(scans, j)
  {
    forall ip | ip in NewAt(scans, i)
      ensures ip in Known(scans[..j])
    {
      KnownIsSeen(scans[..j], ip);
      assert scans[..j][i] == scans[i];
    }
  }

  /** Every known address was new in exactly one scan. */
  lemma {:induction false} KnownWasNew(scans: seq<Option<seq<Connection>>>, ip: string)
    ensures ip in Known(scans) <==> exists i :: 0 <= i < |scans| && ip in NewAt(scans, i)
    decreases |scans|
  {
    if scans != [] {
      var n := |scans| - 1;
      KnownWasNew(scans[..n], ip);
      assert forall i :: 0 <= i < n ==> scans[..n][..i] == scans[..i];
      assert forall i :: 0 <= i < n ==> NewAt(scans[..n], i) == NewAt(scans, i);
      if ip in Known(scans) && ip !in Known(scans[..n]) {
        assert ip in NewAt(scans, n);
      }
    }
  }

  /** Every burst alert costs 21 addresses never seen before. */
  lemma {:induction false} BurstsAmortised(scans: seq<Option<seq<Connection>>>)
    ensures 21 * BurstCount(scans) <= |Known(scans)|
    decreases |scans|
  {
    if scans != [] {
      var n := |scans| - 1;
      BurstsAmortised(scans[..n]);
      BurstsExactly(scans, n);
      var earlier, unseen := Known(scans[..n]), NewAt(scans, n);
      assert Known(scans) == earlier + unseen && earlier !! unseen;
      assert |Known(scans)| == |earlier| + |unseen|;
    }
  }
}
