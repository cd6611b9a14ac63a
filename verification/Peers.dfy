/** crates/aevum-p2p/src/peers.rs: the peer registry, whose calls are sequences of separate atomic
    steps on shared maps and counters, so that calls interleave. */
module Peers {
  import opened Integers

  type NodeId = int
  type Ip = int
  datatype Addr = Addr(ip: Ip, port: int)
  datatype PeerState = PeerState(addr: Addr, isOutbound: bool)

  function Wrap(x: int): int { x % U64 }

  /** Counters are kept modulo 2^64: `fetch_add` and `fetch_sub` wrap. */
  datatype Registry = Registry(
    peers: map<NodeId, PeerState>, addrToPeer: map<Addr, NodeId>, ipConnections: map<Ip, nat>,
    connected: int, outbound: int, connecting: int)

  function NewRegistry(): Registry { Registry(map[], map[], map[], 0, 0, 0) }

  /** One atomic step on a shared map or counter. */
  datatype Action =
    | RemoveAddr(addr: Addr)
    | IpDown(ip: Ip)              // lowers the count, leaving a zero behind
    | IpDrop(ip: Ip)              // removes the entry seen at zero
    | IpUp(ip: Ip)
    | SetAddr(addr: Addr, id: NodeId)
    | AddOutbound(d: int)
    | AddConnected(d: int)
    | ConnectingDown

  function Outgoing(p: PeerState): int { if p.isOutbound then 1 else 0 }

  /** The steps every registration ends with, after the old entry is dealt with. Adding zero to
      the outbound counter stands for the branch that skips it. */
  function Attach(id: NodeId, p: PeerState): seq<Action> {
    [SetAddr(p.addr, id)] + ([IpUp(p.addr.ip)] + ([AddOutbound(Outgoing(p))] + ([ConnectingDown] + [])))
  }

  /** The steps that take an old entry out of the address map and the counts, then `rest`. */
  function Detach(p: PeerState, rest: seq<Action>): seq<Action> {
    [RemoveAddr(p.addr)] + ([IpDown(p.addr.ip)] + ([AddOutbound(-Outgoing(p))] + rest))
  }

  /** What `register_peer` still has to do once `peers.insert` has returned the old entry, if any. */
  function AfterInsert(id: NodeId, p: PeerState, peers: map<NodeId, PeerState>): seq<Action> {
    if id in peers then Detach(peers[id], Attach(id, p)) else [AddConnected(1)] + Attach(id, p)
  }

  /** What `remove_peer` still has to do once `peers.remove` has returned. */
  function AfterRemove(id: NodeId, peers: map<NodeId, PeerState>): seq<Action> {
    if id in peers then Detach(peers[id], [AddConnected(-1)] + []) else []
  }

  /** One step; lowering an IP count to zero adds the removal of its entry as the next step. */
  function Exec(r: Registry, a: Action): (Registry, seq<Action>) {
    match a
    case RemoveAddr(addr) => (r.(addrToPeer := r.addrToPeer - {addr}), [])
    case IpDown(ip) =>
      if ip in r.ipConnections then
        var v := if r.ipConnections[ip] > 0 then r.ipConnections[ip] - 1 else 0;
        (r.(ipConnections := r.ipConnections[ip := v]), if v == 0 then [IpDrop(ip)] else [])
      else (r, [])
    case IpDrop(ip) => (r.(ipConnections := r.ipConnections - {ip}), [])
    case IpUp(ip) =>
      (r.(ipConnections := r.ipConnections[ip := (if ip in r.ipConnections then r.ipConnections[ip] else 0) + 1]), [])
    case SetAddr(addr, id) => (r.(addrToPeer := r.addrToPeer[addr := id]), [])
    case AddOutbound(d) => (r.(outbound := Wrap(r.outbound + d)), [])
    case AddConnected(d) => (r.(connected := Wrap(r.connected + d)), [])
    case ConnectingDown => (r.(connecting := if r.connecting > 0 then r.connecting - 1 else 0), [])
  }

  // ---------- every interleaving ----------

  /** The registry and, for each call in flight, the steps it has left. */
  datatype System = System(reg: Registry, calls: seq<seq<Action>>)

  datatype Event =
    | BeginRegister(id: NodeId, peer: PeerState)   // `peers.insert`
    | BeginRemove(id: NodeId)                      // `peers.remove`
    | Advance(call: nat)                           // the next step of some call

  predicate Enabled(s: System, e: Event) {
    e.Advance? ==> e.call < |s.calls| && s.calls[e.call] != []
  }

  function Happen(s: System, e: Event): System
    requires Enabled(s, e)
  {
    match e
    case BeginRegister(id, p) =>
      System(s.reg.(peers := s.reg.peers[id := p]), s.calls + [AfterInsert(id, p, s.reg.peers)])
    case BeginRemove(id) =>
      System(s.reg.(peers := s.reg.peers - {id}), s.calls + [AfterRemove(id, s.reg.peers)])
    case Advance(c) =>
      var (reg, more) := Exec(s.reg, s.calls[c][0]);
      System(reg, s.calls[c := more + s.calls[c][1..]])
  }

  ghost function OutboundPeers(peers: map<NodeId, PeerState>): set<NodeId> {
    set id | id in peers && peers[id].isOutbound
  }

  function DueConnected(a: Action): int { if a.AddConnected? then a.d else 0 }
  function DueOutbound(a: Action): int { if a.AddOutbound? then a.d else 0 }

  /** The change to a counter that a list of steps will still make. */
  function Due(due: Action -> int, steps: seq<Action>): int {
    if steps == [] then 0 else due(steps[0]) + Due(due, steps[1..])
  }

  function AllDue(due: Action -> int, calls: seq<seq<Action>>): int {
    if calls == [] then 0 else AllDue(due, calls[..|calls| - 1]) + Due(due, calls[|calls| - 1])
  }

  /** Each counter, corrected by the updates still due, equals the true number modulo 2^64. */
  ghost predicate Counted(s: System) {
    && Wrap(s.reg.connected + AllDue(DueConnected, s.calls)) == Wrap(|s.reg.peers|)
    && Wrap(s.reg.outbound + AllDue(DueOutbound, s.calls)) == Wrap(|OutboundPeers(s.reg.peers)|)
    && 0 <= s.reg.connected < U64 && 0 <= s.reg.outbound < U64
  }

  lemma {:induction false} DueAppend(due: Action -> int, a: seq<Action>, b: seq<Action>)
    ensures Due(due, a + b) == Due(due, a) + Due(due, b)
  {
    if a == [] {
      assert a + b == b;
    } else {
      assert (a + b)[1..] == a[1..] + b;
      DueAppend(due, a[1..], b);
    }
  }

  lemma {:induction false} AllDueUpdate(due: Action -> int, calls: seq<seq<Action>>, c: nat, steps: seq<Action>)
    requires c < |calls|
    ensures AllDue(due, calls[c := steps]) == AllDue(due, calls) - Due(due, calls[c]) + Due(due, steps)
  {
    var n := |calls| - 1;
    if c < n {
      AllDueUpdate(due, calls[..n], c, steps);
      assert calls[c := steps][..n] == calls[..n][c := steps];
    } else {
      assert calls[c := steps][..n] == calls[..n];
    }
  }

  lemma AllDueAppend(due: Action -> int, calls: seq<seq<Action>>, steps: seq<Action>)
    ensures AllDue(due, calls + [steps]) == AllDue(due, calls) + Due(due, steps)
  {
    assert (calls + [steps])[..|calls|] == calls;
  }

  lemma DueCons(due: Action -> int, a: Action, rest: seq<Action>)
    ensures Due(due, [a] + rest) == due(a) + Due(due, rest)
  {
    assert ([a] + rest)[1..] == rest;
  }

  lemma DueAttach(due: Action -> int, id: NodeId, p: PeerState)
    ensures Due(due, Attach(id, p)) == due(SetAddr(p.addr, id)) + due(IpUp(p.addr.ip))
                                       + due(AddOutbound(Outgoing(p))) + due(ConnectingDown)
  {
    DueCons(due, ConnectingDown, []);
    DueCons(due, AddOutbound(Outgoing(p)), [ConnectingDown] + []);
    DueCons(due, IpUp(p.addr.ip), [AddOutbound(Outgoing(p))] + ([ConnectingDown] + []));
    DueCons(due, SetAddr(p.addr, id), [IpUp(p.addr.ip)] + ([AddOutbound(Outgoing(p))] + ([ConnectingDown] + [])));
  }

  lemma DueDetach(due: Action -> int, p: PeerState, rest: seq<Action>)
    ensures Due(due, Detach(p, rest)) == due(RemoveAddr(p.addr)) + due(IpDown(p.addr.ip))
                                         + due(AddOutbound(-Outgoing(p))) + Due(due, rest)
  {
    DueCons(due, AddOutbound(-Outgoing(p)), rest);
    DueCons(due, IpDown(p.addr.ip), [AddOutbound(-Outgoing(p))] + rest);
    DueCons(due, RemoveAddr(p.addr), [IpDown(p.addr.ip)] + ([AddOutbound(-Outgoing(p))] + rest));
  }

  /** A registration owes one connection if the node is new, and the change in outbound peers. */
  lemma DueAfterInsert(id: NodeId, p: PeerState, peers: map<NodeId, PeerState>)
    ensures Due(DueConnected, AfterInsert(id, p, peers)) == (if id in peers then 0 else 1)
    ensures Due(DueOutbound, AfterInsert(id, p, peers))
         == Outgoing(p) - (if id in peers then Outgoing(peers[id]) else 0)
  {
    hide Attach, Detach, Due;
    DueAttach(DueConnected, id, p);
    DueAttach(DueOutbound, id, p);
    if id in peers {
      DueDetach(DueConnected, peers[id], Attach(id, p));
      DueDetach(DueOutbound, peers[id], Attach(id, p));
    } else {
      DueCons(DueConnected, AddConnected(1), Attach(id, p));
      DueCons(DueOutbound, AddConnected(1), Attach(id, p));
    }
  }

  lemma DueAfterRemove(id: NodeId, peers: map<NodeId, PeerState>)
    ensures Due(DueConnected, AfterRemove(id, peers)) == (if id in peers then -1 else 0)
    ensures Due(DueOutbound, AfterRemove(id, peers)) == (if id in peers then -Outgoing(peers[id]) else 0)
  {
    hide Detach;
    if id in peers {
      DueCons(DueConnected, AddConnected(-1), []);
      DueCons(DueOutbound, AddConnected(-1), []);
      DueDetach(DueConnected, peers[id], [AddConnected(-1)] + []);
      DueDetach(DueOutbound, peers[id], [AddConnected(-1)] + []);
    }
  }

  function One(b: bool): int { if b then 1 else 0 }

  lemma Toggled(before: set<NodeId>, after: set<NodeId>, id: NodeId)
    requires after - {id} == before - {id}
    ensures |after| == |before| + One(id in after) - One(id in before)
  {
    assert id in before ==> |before - {id}| == |before| - 1;
    assert id in after ==> |after - {id}| == |after| - 1;
    assert id !in before ==> before - {id} == before;
    assert id !in after ==> after - {id} == after;
  }

  lemma OutboundAfterInsert(peers: map<NodeId, PeerState>, id: NodeId, p: PeerState)
    ensures |OutboundPeers(peers[id := p])|
         == |OutboundPeers(peers)| + Outgoing(p) - (if id in peers then Outgoing(peers[id]) else 0)
    ensures |peers[id := p]| == |peers| + (if id in peers then 0 else 1)
  {
    var after := peers[id := p];
    Toggled(OutboundPeers(peers), OutboundPeers(after), id);
    assert after.Keys - {id} == peers.Keys - {id};
    Toggled(peers.Keys, after.Keys, id);
  }

  lemma OutboundAfterRemove(peers: map<NodeId, PeerState>, id: NodeId)
    ensures |OutboundPeers(peers - {id})| == |OutboundPeers(peers)| - (if id in peers then Outgoing(peers[id]) else 0)
    ensures |peers - {id}| == |peers| - (if id in peers then 1 else 0)
  {
    var after := peers - {id};
    Toggled(OutboundPeers(peers), OutboundPeers(after), id);
    assert after.Keys - {id} == peers.Keys - {id};
    Toggled(peers.Keys, after.Keys, id);
  }

  lemma WrapFacts(x: int)
    ensures 0 <= Wrap(x) < U64 && (0 <= x < U64 ==> Wrap(x) == x)
  {
  }

  lemma ModShift(a: int, b: int, d: int)
    requires Wrap(a) == Wrap(b)
    ensures Wrap(a + d) == Wrap(b + d)
  {
  }

  lemma ModMove(c: int, due: int, d: int)
    ensures Wrap(Wrap(c + d) + due - d) == Wrap(c + due)
  {
  }

  /** Executing a step moves its amount from "due" into the counter, and touches no peer. */
  lemma ExecCounted(r: Registry, a: Action)
    ensures var (r', more) := Exec(r, a);
            && r'.peers == r.peers
            && Due(DueConnected, more) == 0 && Due(DueOutbound, more) == 0
            && r'.connected == (if a.AddConnected? then Wrap(r.connected + a.d) else r.connected)
            && r'.outbound == (if a.AddOutbound? then Wrap(r.outbound + a.d) else r.outbound)
  {
  }

  lemma AdvanceCounted(s: System, c: nat)
    requires Counted(s) && Enabled(s, Advance(c))
    ensures Counted(Happen(s, Advance(c)))
  {
    hide OutboundPeers, AllDue, Wrap;
    var a, rest := s.calls[c][0], s.calls[c][1..];
    var (r', more) := Exec(s.reg, a);
    ExecCounted(s.reg, a);
    WrapFacts(s.reg.connected + DueConnected(a));
    WrapFacts(s.reg.outbound + DueOutbound(a));
    hide Exec;
    AllDueUpdate(DueConnected, s.calls, c, more + rest);
    AllDueUpdate(DueOutbound, s.calls, c, more + rest);
    DueAppend(DueConnected, more, rest);
    DueAppend(DueOutbound, more, rest);
    ModMove(s.reg.connected, AllDue(DueConnected, s.calls), DueConnected(a));
    ModMove(s.reg.outbound, AllDue(DueOutbound, s.calls), DueOutbound(a));
  }

  lemma HappenCounted(s: System, e: Event)
    requires Counted(s) && Enabled(s, e)
    ensures Counted(Happen(s, e))
  {
    match e
    case BeginRegister(id, p) =>
      DueAfterInsert(id, p, s.reg.peers);
      OutboundAfterInsert(s.reg.peers, id, p);
      BeginCounted(s, s.reg.peers[id := p], AfterInsert(id, p, s.reg.peers));
    case BeginRemove(id) =>
      DueAfterRemove(id, s.reg.peers);
      OutboundAfterRemove(s.reg.peers, id);
      BeginCounted(s, s.reg.peers - {id}, AfterRemove(id, s.reg.peers));
    case Advance(c) =>
      AdvanceCounted(s, c);
  }

  /** A call that starts changes the peers and owes exactly that change to the counters. */
  lemma BeginCounted(s: System, peers: map<NodeId, PeerState>, steps: seq<Action>)
    requires Counted(s)
    requires Due(DueConnected, steps) == |peers| - |s.reg.peers|
    requires Due(DueOutbound, steps) == |OutboundPeers(peers)| - |OutboundPeers(s.reg.peers)|
    ensures Counted(System(s.reg.(peers := peers), s.calls + [steps]))
  {
    hide OutboundPeers, Due, AllDue;
    AllDueAppend(DueConnected, s.calls, steps);
    AllDueAppend(DueOutbound, s.calls, steps);
    ModShift(s.reg.connected + AllDue(DueConnected, s.calls), |s.reg.peers|, Due(DueConnected, steps));
    ModShift(s.reg.outbound + AllDue(DueOutbound, s.calls), |OutboundPeers(s.reg.peers)|, Due(DueOutbound, steps));
  }

  ghost predicate HappensTo(s: System, e: Event, t: System) { Enabled(s, e) && t == Happen(s, e) }

  /** The states of a run that starts with an empty registry and no call in flight. */
  ghost predicate IsRun(events: seq<Event>, states: seq<System>) {
    && |states| == |events| + 1 && states[0] == System(NewRegistry(), [])
    && forall i :: 0 <= i < |events| ==> HappensTo(states[i], events[i], states[i + 1])
  }

  ghost predicate Quiescent(s: System) { forall c :: 0 <= c < |s.calls| ==> s.calls[c] == [] }

  /** Under every interleaving the counters are right up to the updates still due. */
  lemma {:induction false} EveryRunCounted(events: seq<Event>, states: seq<System>, i: nat)
    requires IsRun(events, states) && i < |states|
    ensures Counted(states[i])
  {
    if i == 0 {
      assert OutboundPeers(map[]) == {};
    } else {
      EveryRunCounted(events, states, i - 1);
      assert HappensTo(states[i - 1], events[i - 1], states[i]);
      HappenCounted(states[i - 1], events[i - 1]);
    }
  }

  lemma {:induction false} NothingDue(due: Action -> int, calls: seq<seq<Action>>)
    requires forall c :: 0 <= c < |calls| ==> calls[c] == []
    ensures AllDue(due, calls) == 0
  {
    if calls != [] { NothingDue(due, calls[..|calls| - 1]); }
  }

  /** Whenever no call is in flight, both counters are exact, whatever the interleaving was. */
  lemma QuiescentCountersExact(events: seq<Event>, states: seq<System>, i: nat)
    requires IsRun(events, states) && i < |states| && Quiescent(states[i])
    requires |states[i].reg.peers| < U64 && |OutboundPeers(states[i].reg.peers)| < U64
    ensures states[i].reg.connected == |states[i].reg.peers|
    ensures states[i].reg.outbound == |OutboundPeers(states[i].reg.peers)|
  {
    EveryRunCounted(events, states, i);
    NothingDue(DueConnected, states[i].calls);
    NothingDue(DueOutbound, states[i].calls);
  }

  // ---------- one call at a time ----------

  function Weight(steps: seq<Action>): nat {
    if steps == [] then 0 else (if steps[0].IpDown? then 2 else 1) + Weight(steps[1..])
  }

  lemma {:induction false} WeightAppend(a: seq<Action>, b: seq<Action>)
    ensures Weight(a + b) == Weight(a) + Weight(b)
  {
    if a == [] {
      assert a + b == b;
    } else {
      assert (a + b)[1..] == a[1..] + b;
      WeightAppend(a[1..], b);
    }
  }

  /** Runs the remaining steps of one call with nothing in between. */
  function Finish(r: Registry, steps: seq<Action>): Registry
    decreases Weight(steps)
  {
    if steps == [] then r
    else
      var (r', more) := Exec(r, steps[0]);
      WeightAppend(more, steps[1..]);
      Finish(r', more + steps[1..])
  }

  function Register(r: Registry, id: NodeId, p: PeerState): Registry {
    Finish(r.(peers := r.peers[id := p]), AfterInsert(id, p, r.peers))
  }

  function Remove(r: Registry, id: NodeId): Registry {
    Finish(r.(peers := r.peers - {id}), AfterRemove(id, r.peers))
  }

  ghost function AtIp(peers: map<NodeId, PeerState>, ip: Ip): set<NodeId> {
    set id | id in peers && peers[id].addr.ip == ip
  }

  function Lowered(ips: map<Ip, nat>, ip: Ip): map<Ip, nat> {
    if ip !in ips then ips
    else if ips[ip] <= 1 then ips - {ip}
    else ips[ip := ips[ip] - 1]
  }

  function Raised(ips: map<Ip, nat>, ip: Ip): map<Ip, nat> {
    ips[ip := (if ip in ips then ips[ip] else 0) + 1]
  }

  lemma FinishStep(r: Registry, a: Action, rest: seq<Action>)
    ensures Finish(r, [a] + rest) == Finish(Exec(r, a).0, Exec(r, a).1 + rest)
  {
    assert ([a] + rest)[1..] == rest;
  }

  lemma FinishIpDown(r: Registry, ip: Ip, rest: seq<Action>)
    ensures Finish(r, [IpDown(ip)] + rest) == Finish(r.(ipConnections := Lowered(r.ipConnections, ip)), rest)
  {
    FinishStep(r, IpDown(ip), rest);
    var (r', more) := Exec(r, IpDown(ip));
    assert [] + rest == rest;
    if more != [] {
      FinishStep(r', IpDrop(ip), rest);
      assert r'.ipConnections - {ip} == r.ipConnections - {ip};
    }
  }

  lemma FinishSimple(r: Registry, a: Action, rest: seq<Action>)
    requires !a.IpDown?
    ensures Finish(r, [a] + rest) == Finish(Exec(r, a).0, rest)
  {
    FinishStep(r, a, rest);
    assert Exec(r, a).1 + rest == rest;
  }

  lemma FinishDetach(r: Registry, p: PeerState, rest: seq<Action>)
    ensures Finish(r, Detach(p, rest))
         == Finish(r.(addrToPeer := r.addrToPeer - {p.addr}, ipConnections := Lowered(r.ipConnections, p.addr.ip),
                      outbound := Wrap(r.outbound - Outgoing(p))), rest)
  {
    hide Finish, Lowered;
    var r1 := r.(addrToPeer := r.addrToPeer - {p.addr});
    FinishSimple(r, RemoveAddr(p.addr), [IpDown(p.addr.ip)] + ([AddOutbound(-Outgoing(p))] + rest));
    FinishIpDown(r1, p.addr.ip, [AddOutbound(-Outgoing(p))] + rest);
    FinishSimple(r1.(ipConnections := Lowered(r.ipConnections, p.addr.ip)), AddOutbound(-Outgoing(p)), rest);
  }

  lemma FinishAttach(r: Registry, id: NodeId, p: PeerState)
    ensures Finish(r, Attach(id, p))
         == r.(addrToPeer := r.addrToPeer[p.addr := id], ipConnections := Raised(r.ipConnections, p.addr.ip),
               outbound := Wrap(r.outbound + Outgoing(p)),
               connecting := if r.connecting > 0 then r.connecting - 1 else 0)
  {
    hide Raised;
    var r1 := r.(addrToPeer := r.addrToPeer[p.addr := id]);
    var s3 := [ConnectingDown] + [];
    var s2 := [AddOutbound(Outgoing(p))] + s3;
    FinishSimple(r, SetAddr(p.addr, id), [IpUp(p.addr.ip)] + s2);
    RaisedIsUp(r1, p.addr.ip);
    FinishSimple(r1, IpUp(p.addr.ip), s2);
    var r2 := r1.(ipConnections := Raised(r.ipConnections, p.addr.ip));
    FinishSimple(r2, AddOutbound(Outgoing(p)), s3);
    FinishSimple(r2.(outbound := Wrap(r.outbound + Outgoing(p))), ConnectingDown, []);
  }

  lemma RaisedIsUp(r: Registry, ip: Ip)
    ensures Exec(r, IpUp(ip)).0 == r.(ipConnections := Raised(r.ipConnections, ip))
  {
  }

  // ---------- calls that do not overlap keep everything exact ----------

  lemma RegisterResult(r: Registry, id: NodeId, p: PeerState)
    ensures var q := Register(r, id, p);
            && q.peers == r.peers[id := p]
            && q.addrToPeer == (if id in r.peers then r.addrToPeer - {r.peers[id].addr} else r.addrToPeer)[p.addr := id]
            && q.ipConnections
               == Raised(if id in r.peers then Lowered(r.ipConnections, r.peers[id].addr.ip) else r.ipConnections,
                         p.addr.ip)
            && q.connected == (if id in r.peers then r.connected else Wrap(r.connected + 1))
            && q.outbound == Wrap((if id in r.peers then Wrap(r.outbound - Outgoing(r.peers[id])) else r.outbound)
                              + Outgoing(p))
            && q.connecting == (if r.connecting > 0 then r.connecting - 1 else 0)
  {
    hide Finish, Detach, Attach, Lowered, Raised;
    var r0 := r.(peers := r.peers[id := p]);
    if id in r.peers {
      var o := r.peers[id];
      FinishDetach(r0, o, Attach(id, p));
      FinishAttach(r0.(addrToPeer := r.addrToPeer - {o.addr}, ipConnections := Lowered(r.ipConnections, o.addr.ip),
                       outbound := Wrap(r.outbound - Outgoing(o))), id, p);
    } else {
      FinishSimple(r0, AddConnected(1), Attach(id, p));
      FinishAttach(r0.(connected := Wrap(r.connected + 1)), id, p);
    }
  }

  lemma RemoveResult(r: Registry, id: NodeId)
    ensures id !in r.peers ==> Remove(r, id) == r
    ensures id in r.peers ==>
            var o := r.peers[id];
            Remove(r, id) == r.(peers := r.peers - {id}, addrToPeer := r.addrToPeer - {o.addr},
                                ipConnections := Lowered(r.ipConnections, o.addr.ip),
                                outbound := Wrap(r.outbound - Outgoing(o)), connected := Wrap(r.connected - 1))
  {
    hide Detach, Lowered;
    var r0 := r.(peers := r.peers - {id});
    if id in r.peers {
      var o := r.peers[id];
      FinishDetach(r0, o, [AddConnected(-1)] + []);
      FinishSimple(r0.(addrToPeer := r.addrToPeer - {o.addr}, ipConnections := Lowered(r.ipConnections, o.addr.ip),
                       outbound := Wrap(r.outbound - Outgoing(o))), AddConnected(-1), []);
    } else {
      assert r.peers - {id} == r.peers;
    }
  }

  /** The per-IP counts are the numbers of peers, with no zero entries. */
  ghost predicate IpMatches(ips: map<Ip, nat>, peers: map<NodeId, PeerState>) {
    forall ip :: IpMatchesAt(ips, peers, ip)
  }

  ghost predicate IpMatchesAt(ips: map<Ip, nat>, peers: map<NodeId, PeerState>, ip: Ip) {
    (if ip in ips then ips[ip] else 0) == |AtIp(peers, ip)| && (ip in ips ==> ips[ip] > 0)
  }

  lemma LowerMatches(ips: map<Ip, nat>, peers: map<NodeId, PeerState>, id: NodeId)
    requires IpMatches(ips, peers) && id in peers
    ensures IpMatches(Lowered(ips, peers[id].addr.ip), peers - {id})
  {
    forall ip ensures IpMatchesAt(Lowered(ips, peers[id].addr.ip), peers - {id}, ip) {
      assert IpMatchesAt(ips, peers, ip);
      assert AtIp(peers - {id}, ip) - {id} == AtIp(peers, ip) - {id};
      Toggled(AtIp(peers, ip), AtIp(peers - {id}, ip), id);
    }
  }

  lemma RaiseMatches(ips: map<Ip, nat>, peers: map<NodeId, PeerState>, id: NodeId, p: PeerState)
    requires IpMatches(ips, peers) && id !in peers
    ensures IpMatches(Raised(ips, p.addr.ip), peers[id := p])
  {
    var ips', peers' := Raised(ips, p.addr.ip), peers[id := p];
    forall ip ensures IpMatchesAt(ips', peers', ip) {
      assert IpMatchesAt(ips, peers, ip);
      assert AtIp(peers', ip) - {id} == AtIp(peers, ip) - {id};
      Toggled(AtIp(peers, ip), AtIp(peers', ip), id);
    }
  }

  ghost predicate Counters(r: Registry) {
    r.connected == Wrap(|r.peers|) && r.outbound == Wrap(|OutboundPeers(r.peers)|)
  }

  /** A registration that runs alone keeps all three counts exact. */
  lemma RegisterExact(r: Registry, id: NodeId, p: PeerState)
    requires IpMatches(r.ipConnections, r.peers) && Counters(r)
    ensures IpMatches(Register(r, id, p).ipConnections, Register(r, id, p).peers) && Counters(Register(r, id, p))
  {
    hide Register, Counters, IpMatches;
    RegisterIps(r, id, p);
    RegisterCounters(r, id, p);
  }

  lemma RegisterIps(r: Registry, id: NodeId, p: PeerState)
    requires IpMatches(r.ipConnections, r.peers)
    ensures IpMatches(Register(r, id, p).ipConnections, Register(r, id, p).peers)
  {
    hide Register, Lowered, Raised, IpMatches, Wrap;
    RegisterResult(r, id, p);
    if id in r.peers {
      LowerMatches(r.ipConnections, r.peers, id);
      RaiseMatches(Lowered(r.ipConnections, r.peers[id].addr.ip), r.peers - {id}, id, p);
      assert (r.peers - {id})[id := p] == r.peers[id := p];
    } else {
      RaiseMatches(r.ipConnections, r.peers, id, p);
    }
  }

  lemma RegisterCounters(r: Registry, id: NodeId, p: PeerState)
    requires Counters(r)
    ensures Counters(Register(r, id, p))
  {
    hide Register, Lowered, Raised, OutboundPeers, Wrap;
    RegisterResult(r, id, p);
    OutboundAfterInsert(r.peers, id, p);
    ModChain(|OutboundPeers(r.peers)|, if id in r.peers then -Outgoing(r.peers[id]) else 0, Outgoing(p));
    ModChain(|r.peers|, 0, 1);
  }

  lemma RemoveExact(r: Registry, id: NodeId)
    requires IpMatches(r.ipConnections, r.peers) && Counters(r)
    ensures IpMatches(Remove(r, id).ipConnections, Remove(r, id).peers) && Counters(Remove(r, id))
  {
    hide Remove, Lowered, IpMatches, OutboundPeers, Wrap;
    RemoveResult(r, id);
    OutboundAfterRemove(r.peers, id);
    if id in r.peers {
      LowerMatches(r.ipConnections, r.peers, id);
      ModChain(|OutboundPeers(r.peers)|, 0, -Outgoing(r.peers[id]));
      ModChain(|r.peers|, 0, -1);
    }
  }

  lemma ModChain(n: int, a: int, b: int)
    ensures Wrap(Wrap(Wrap(n) + a) + b) == Wrap(n + a + b)
    ensures Wrap(Wrap(n) + b) == Wrap(n + b)
  {
  }

  datatype Call = CallRegister(id: NodeId, peer: PeerState) | CallRemove(id: NodeId)

  /** The registry after calls made one after the other. */
  function AfterCalls(calls: seq<Call>): Registry {
    if calls == [] then NewRegistry()
    else
      var r := AfterCalls(calls[..|calls| - 1]);
      match calls[|calls| - 1]
      case CallRegister(id, p) => Register(r, id, p)
      case CallRemove(id) => Remove(r, id)
  }

  /** In every sequential run the per-IP counts equal the numbers of peers, with no zero entry,
      and both counters are exact. */
  lemma {:induction false} SequentialRunsExact(calls: seq<Call>)
    ensures IpMatches(AfterCalls(calls).ipConnections, AfterCalls(calls).peers) && Counters(AfterCalls(calls))
  {
    if calls == [] {
      assert OutboundPeers(map[]) == {};
      forall ip ensures IpMatchesAt(map[], map[], ip) { assert AtIp(map[], ip) == {}; }
    } else {
      SequentialRunsExact(calls[..|calls| - 1]);
      var r := AfterCalls(calls[..|calls| - 1]);
      match calls[|calls| - 1]
      case CallRegister(id, p) => RegisterExact(r, id, p);
      case CallRemove(id) => RemoveExact(r, id);
    }
  }

  /** Every entry of the address map names a connected peer at that address. */
  ghost predicate AddrsValid(addrs: map<Addr, NodeId>, peers: map<NodeId, PeerState>) {
    forall a :: a in addrs ==> addrs[a] in peers && peers[addrs[a]].addr == a
  }

  /** In every sequential run a looked-up address never leads to a peer that is gone or elsewhere,
      and a peer is found under its address right after it registers. */
  lemma {:induction false} SequentialAddrsValid(calls: seq<Call>)
    ensures AddrsValid(AfterCalls(calls).addrToPeer, AfterCalls(calls).peers)
    ensures calls != [] && calls[|calls| - 1].CallRegister? ==>
              var last, r := calls[|calls| - 1], AfterCalls(calls);
              last.peer.addr in r.addrToPeer && r.addrToPeer[last.peer.addr] == last.id
  {
    if calls != [] {
      hide Register, Remove, Lowered, Raised, Wrap;
      SequentialAddrsValid(calls[..|calls| - 1]);
      var r := AfterCalls(calls[..|calls| - 1]);
      match calls[|calls| - 1]
      case CallRegister(id, p) => RegisterResult(r, id, p);
      case CallRemove(id) => RemoveResult(r, id);
    }
  }

  // ---------- overlapping calls can lose a per-IP count ----------

  ghost predicate Reachable(s: System) {
    exists events, states :: IsRun(events, states) && states[|states| - 1] == s
  }

  lemma ReachableStep(s: System, e: Event)
    requires Reachable(s) && Enabled(s, e)
    ensures Reachable(Happen(s, e))
  {
    var events, states :| IsRun(events, states) && states[|states| - 1] == s;
    var events', states' := events + [e], states + [Happen(s, e)];
    forall i | 0 <= i < |events'| ensures HappensTo(states'[i], events'[i], states'[i + 1]) {
      if i < |events| { assert HappensTo(states[i], events[i], states[i + 1]); }
    }
    assert IsRun(events', states');
  }

  /** A call left alone ends as the sequential model says. */
  lemma {:induction false} ReachableFinish(s: System, c: nat)
    requires Reachable(s) && c < |s.calls|
    ensures Reachable(System(Finish(s.reg, s.calls[c]), s.calls[c := []]))
    decreases Weight(s.calls[c])
  {
    hide Reachable;
    if s.calls[c] == [] {
      assert s.calls[c := []] == s.calls;
    } else {
      var t := Happen(s, Advance(c));
      ReachableStep(s, Advance(c));
      var (r', more) := Exec(s.reg, s.calls[c][0]);
      WeightAppend(more, s.calls[c][1..]);
      ReachableFinish(t, c);
      assert t.calls[c := []] == s.calls[c := []];
    }
  }

  /** Removing the last peer of an IP while another peer of that IP registers: both calls end, one
      peer is connected, and the IP has no count. */
  lemma OverlapLosesIpCount()
    ensures exists s :: Reachable(s) && Quiescent(s) && !IpMatches(s.reg.ipConnections, s.reg.peers)
  {
    var a, b := PeerState(Addr(7, 1), false), PeerState(Addr(7, 2), false);
    var s := OverlapBegins(a, b);
    var t := System(Finish(s.reg, s.calls[2]), s.calls[2 := []]);
    ReachableFinish(s, 2);
    FinishSimple(s.reg, AddConnected(1), Attach(2, b));
    FinishAttach(s.reg.(connected := Wrap(s.reg.connected + 1)), 2, b);
    assert t.reg.ipConnections == map[7 := 1];
    var rest := [AddOutbound(0)] + ([AddConnected(-1)] + []);
    assert t.calls[1] == [IpDrop(7)] + rest;
    var u := System(Finish(t.reg, t.calls[1]), t.calls[1 := []]);
    ReachableFinish(t, 1);
    FinishSimple(t.reg, IpDrop(7), rest);
    var r1 := t.reg.(ipConnections := map[]);
    assert t.reg.ipConnections - {7} == map[];
    FinishSimple(r1, AddOutbound(0), [AddConnected(-1)] + []);
    FinishSimple(r1.(outbound := Wrap(r1.outbound + 0)), AddConnected(-1), []);
    assert u.reg.ipConnections == map[] && u.reg.peers == map[2 := b];
    assert 2 in AtIp(u.reg.peers, 7);
    assert !IpMatchesAt(u.reg.ipConnections, u.reg.peers, 7);
    assert Quiescent(u);
  }

  /** The state in which the removal has lowered the count to zero but not dropped the entry. */
  lemma OverlapBegins(a: PeerState, b: PeerState) returns (s: System)
    requires a == PeerState(Addr(7, 1), false) && b == PeerState(Addr(7, 2), false)
    ensures Reachable(s) && |s.calls| == 3 && s.calls[0] == [] && s.calls[2] == [AddConnected(1)] + Attach(2, b)
    ensures s.calls[1] == [IpDrop(7)] + ([AddOutbound(0)] + ([AddConnected(-1)] + []))
    ensures s.reg.ipConnections == map[7 := 0] && s.reg.peers == map[2 := b]
  {
    hide Reachable, Finish;
    var s0 := System(NewRegistry(), []);
    assert Reachable(s0) by { assert IsRun([], [s0]); StartReachable(); }
    var s1 := Happen(s0, BeginRegister(1, a));
    ReachableStep(s0, BeginRegister(1, a));
    ReachableFinish(s1, 0);
    var s2 := System(Finish(s1.reg, s1.calls[0]), s1.calls[0 := []]);
    FinishSimple(s1.reg, AddConnected(1), Attach(1, a));
    FinishAttach(s1.reg.(connected := Wrap(s1.reg.connected + 1)), 1, a);
    assert s2.reg.ipConnections == map[7 := 1] && s2.reg.peers == map[1 := a];
    var s3 := Happen(s2, BeginRemove(1));
    ReachableStep(s2, BeginRemove(1));
    var s4 := Happen(s3, Advance(1));
    ReachableStep(s3, Advance(1));
    var s5 := Happen(s4, Advance(1));
    ReachableStep(s4, Advance(1));
    s := Happen(s5, BeginRegister(2, b));
    ReachableStep(s5, BeginRegister(2, b));
  }

  lemma StartReachable()
    ensures Reachable(System(NewRegistry(), []))
  {
    assert IsRun([], [System(NewRegistry(), [])]);
  }

  // ---------- the registry, updated in place ----------

  class PeersManager {
    var peers: map<NodeId, PeerState>
    var addrToPeer: map<Addr, NodeId>
    var ipConnections: map<Ip, nat>
    var connectedCount: int
    var outboundCount: int
    var connectingCount: int

    ghost function R(): Registry
      reads this
    {
      Registry(peers, addrToPeer, ipConnections, connectedCount, outboundCount, connectingCount)
    }

    constructor ()
      ensures R() == NewRegistry()
    {
      peers, addrToPeer, ipConnections := map[], map[], map[];
      connectedCount, outboundCount, connectingCount := 0, 0, 0;
    }

    method RegisterPeer(id: NodeId, addr: Addr, isOutbound: bool)
      requires 0 <= outboundCount < U64
      modifies this
      ensures R() == Register(old(R()), id, PeerState(addr, isOutbound))
    {
      var p := PeerState(addr, isOutbound);
      RegisterResult(R(), id, p);
      hide Register, Wrap, Lowered;
      if id in peers {
        var o := peers[id];
        peers := peers[id := p];
        DetachOld(o);
      } else {
        peers := peers[id := p];
        connectedCount := Wrap(connectedCount + 1);
      }
      addrToPeer := addrToPeer[addr := id];
      ipConnections := ipConnections[addr.ip := (if addr.ip in ipConnections then ipConnections[addr.ip] else 0) + 1];
      WrapFacts(outboundCount);
      if isOutbound {
        outboundCount := Wrap(outboundCount + 1);
      }
      connectingCount := if connectingCount > 0 then connectingCount - 1 else 0;
    }

    /** Takes a replaced or removed entry out of the address map and the counts. */
    method DetachOld(o: PeerState)
      requires 0 <= outboundCount < U64
      modifies this`addrToPeer, this`ipConnections, this`outboundCount
      ensures addrToPeer == old(addrToPeer) - {o.addr}
      ensures ipConnections == Lowered(old(ipConnections), o.addr.ip)
      ensures outboundCount == Wrap(old(outboundCount) - Outgoing(o)) && 0 <= outboundCount < U64
    {
      addrToPeer := addrToPeer - {o.addr};
      DecrementIp(o.addr.ip);
      if o.isOutbound {
        outboundCount := Wrap(outboundCount - 1);
      }
    }

    method RemovePeer(id: NodeId)
      requires 0 <= outboundCount < U64
      modifies this
      ensures R() == Remove(old(R()), id)
    {
      RemoveResult(R(), id);
      hide Remove, Wrap, Lowered;
      if id in peers {
        var o := peers[id];
        peers := peers - {id};
        DetachOld(o);
        connectedCount := Wrap(connectedCount - 1);
      }
    }

    /** Lowers a count and drops it at zero. */
    method DecrementIp(ip: Ip)
      modifies this`ipConnections
      ensures ipConnections == Lowered(old(ipConnections), ip)
    {
      var remove := false;
      if ip in ipConnections {
        var v := if ipConnections[ip] > 0 then ipConnections[ip] - 1 else 0;
        ipConnections := ipConnections[ip := v];
        remove := v == 0;
      }
      if remove {
        ipConnections := ipConnections - {ip};
      }
    }
  }
}
