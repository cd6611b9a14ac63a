/** crates/aevum-p2p/src/peers.rs: what overlapping calls do to the per-IP counts. */
module PeersOverlap {
  import opened Peers

  function IpCount(r: Registry, ip: Ip): nat { if ip in r.ipConnections then r.ipConnections[ip] else 0 }

  predicate Touches(a: Action, ip: Ip) { (a.IpDown? || a.IpDrop? || a.IpUp?) && a.ip == ip }

  /** The change to the count of `ip` that a step is meant to make. */
  function DueIp(ip: Ip): Action -> int {
    (a: Action) => if a == IpUp(ip) then 1 else if a == IpDown(ip) then -1 else 0
  }

  /** How far a step misses that change: lowering a count that is zero or absent changes nothing,
      and dropping an entry loses whatever it has been raised to since it was seen at zero. */
  function StepDrift(r: Registry, a: Action, ip: Ip): int {
    if a == IpDown(ip) && IpCount(r, ip) == 0 then 1
    else if a == IpDrop(ip) then -(IpCount(r, ip) as int)
    else 0
  }

  function EventDrift(s: System, e: Event, ip: Ip): int
    requires Enabled(s, e)
  {
    if e.Advance? then StepDrift(s.reg, s.calls[e.call][0], ip) else 0
  }

  /** The drift of the first i events of a run. */
  ghost function Drift(events: seq<Event>, states: seq<System>, ip: Ip, i: nat): int
    requires IsRun(events, states) && i < |states|
  {
    if i == 0 then 0
    else
      assert HappensTo(states[i - 1], events[i - 1], states[i]);
      Drift(events, states, ip, i - 1) + EventDrift(states[i - 1], events[i - 1], ip)
  }

  /** The count, corrected by the updates still due, is the number of peers plus the drift. */
  ghost predicate Accounted(s: System, ip: Ip, drift: int) {
    IpCount(s.reg, ip) + AllDue(DueIp(ip), s.calls) == |AtIp(s.reg.peers, ip)| + drift
  }

  // ---------- every step ----------

  lemma ExecIp(r: Registry, a: Action, ip: Ip)
    ensures var (r', more) := Exec(r, a);
            && r'.peers == r.peers && Due(DueIp(ip), more) == 0
            && IpCount(r', ip) == IpCount(r, ip) + DueIp(ip)(a) + StepDrift(r, a, ip)
  {
    if a.IpDown? {
      DueCons(DueIp(ip), IpDrop(a.ip), []);
      assert [IpDrop(a.ip)] + [] == [IpDrop(a.ip)];
    }
  }

  lemma AdvanceAccounted(s: System, c: nat, ip: Ip, drift: int)
    requires Accounted(s, ip, drift) && Enabled(s, Advance(c))
    ensures Accounted(Happen(s, Advance(c)), ip, drift + EventDrift(s, Advance(c), ip))
  {
    hide AtIp;
    var a, rest := s.calls[c][0], s.calls[c][1..];
    var (r', more) := Exec(s.reg, a);
    ExecIp(s.reg, a, ip);
    AllDueUpdate(DueIp(ip), s.calls, c, more + rest);
    DueAppend(DueIp(ip), more, rest);
  }

  /** The number of peers of an address that a node accounts for. */
  function Share(peers: map<NodeId, PeerState>, id: NodeId, ip: Ip): int {
    if id in peers && peers[id].addr.ip == ip then 1 else 0
  }

  lemma DueIpAfterInsert(id: NodeId, p: PeerState, peers: map<NodeId, PeerState>, ip: Ip)
    ensures Due(DueIp(ip), AfterInsert(id, p, peers)) == Share(peers[id := p], id, ip) - Share(peers, id, ip)
  {
    hide Attach, Detach, Due;
    DueAttach(DueIp(ip), id, p);
    if id in peers {
      DueDetach(DueIp(ip), peers[id], Attach(id, p));
    } else {
      DueCons(DueIp(ip), AddConnected(1), Attach(id, p));
    }
  }

  lemma DueIpAfterRemove(id: NodeId, peers: map<NodeId, PeerState>, ip: Ip)
    ensures Due(DueIp(ip), AfterRemove(id, peers)) == -Share(peers, id, ip)
  {
    hide Detach;
    if id in peers {
      DueCons(DueIp(ip), AddConnected(-1), []);
      DueDetach(DueIp(ip), peers[id], [AddConnected(-1)] + []);
    }
  }

  lemma AtIpShift(peers: map<NodeId, PeerState>, peers': map<NodeId, PeerState>, id: NodeId, ip: Ip)
    requires peers - {id} == peers' - {id}
    ensures |AtIp(peers', ip)| == |AtIp(peers, ip)| + Share(peers', id, ip) - Share(peers, id, ip)
  {
    forall k | k != id ensures k in AtIp(peers, ip) <==> k in AtIp(peers', ip) {
      assert k in peers <==> k in peers - {id};
      assert k in peers' <==> k in peers' - {id};
      if k in peers - {id} { assert peers[k] == (peers - {id})[k] == (peers' - {id})[k] == peers'[k]; }
    }
    assert AtIp(peers', ip) - {id} == AtIp(peers, ip) - {id};
    Toggled(AtIp(peers, ip), AtIp(peers', ip), id);
  }

  lemma BeginAccounted(s: System, peers: map<NodeId, PeerState>, steps: seq<Action>, id: NodeId, ip: Ip, drift: int)
    requires Accounted(s, ip, drift) && s.reg.peers - {id} == peers - {id}
    requires Due(DueIp(ip), steps) == Share(peers, id, ip) - Share(s.reg.peers, id, ip)
    ensures Accounted(System(s.reg.(peers := peers), s.calls + [steps]), ip, drift)
  {
    hide AtIp, Share, Due;
    AllDueAppend(DueIp(ip), s.calls, steps);
    AtIpShift(s.reg.peers, peers, id, ip);
  }

  lemma HappenAccounted(s: System, e: Event, ip: Ip, drift: int)
    requires Accounted(s, ip, drift) && Enabled(s, e)
    ensures Accounted(Happen(s, e), ip, drift + EventDrift(s, e, ip))
  {
    hide Accounted, Due, AfterInsert, AfterRemove;
    match e
    case BeginRegister(id, p) =>
      DueIpAfterInsert(id, p, s.reg.peers, ip);
      assert s.reg.peers[id := p] - {id} == s.reg.peers - {id};
      BeginAccounted(s, s.reg.peers[id := p], AfterInsert(id, p, s.reg.peers), id, ip, drift);
    case BeginRemove(id) =>
      DueIpAfterRemove(id, s.reg.peers, ip);
      BeginAccounted(s, s.reg.peers - {id}, AfterRemove(id, s.reg.peers), id, ip, drift);
    case Advance(c) =>
      AdvanceAccounted(s, c, ip, drift);
  }

  /** Under every interleaving: count plus updates due equals number of peers plus drift. */
  lemma {:induction false} EveryRunAccounted(events: seq<Event>, states: seq<System>, ip: Ip, i: nat)
    requires IsRun(events, states) && i < |states|
    ensures Accounted(states[i], ip, Drift(events, states, ip, i))
  {
    if i == 0 {
      assert AtIp(map[], ip) == {};
    } else {
      hide Accounted, Happen;
      EveryRunAccounted(events, states, ip, i - 1);
      assert HappensTo(states[i - 1], events[i - 1], states[i]);
      HappenAccounted(states[i - 1], events[i - 1], ip, Drift(events, states, ip, i - 1));
    }
  }

  // ---------- no zero entry survives ----------

  ghost predicate DropPending(calls: seq<seq<Action>>, ip: Ip) {
    exists c :: 0 <= c < |calls| && calls[c] != [] && calls[c][0] == IpDrop(ip)
  }

  /** An entry at zero is about to be dropped by the call that lowered it. */
  ghost predicate ZeroIsPending(s: System, ip: Ip) {
    ip in s.reg.ipConnections && s.reg.ipConnections[ip] == 0 ==> DropPending(s.calls, ip)
  }

  lemma PendingStays(calls: seq<seq<Action>>, calls': seq<seq<Action>>, c: nat, ip: Ip)
    requires DropPending(calls, ip) && |calls'| >= |calls|
    requires forall d :: 0 <= d < |calls| && d != c ==> calls'[d] == calls[d]
    requires c < |calls| ==> calls[c] == [] || calls[c][0] != IpDrop(ip)
    ensures DropPending(calls', ip)
  {
    var d :| 0 <= d < |calls| && calls[d] != [] && calls[d][0] == IpDrop(ip);
    assert calls'[d] == calls[d];
  }

  lemma HappenZero(s: System, e: Event, ip: Ip)
    requires ZeroIsPending(s, ip) && Enabled(s, e)
    ensures ZeroIsPending(Happen(s, e), ip)
  {
    var t := Happen(s, e);
    if e.Advance? {
      var c, a := e.call, s.calls[e.call][0];
      var more := Exec(s.reg, a).1;
      if a == IpDown(ip) && more != [] {
        assert t.calls[c][0] == IpDrop(ip);
      } else if a != IpDrop(ip) && DropPending(s.calls, ip) {
        PendingStays(s.calls, t.calls, c, ip);
      }
    } else if DropPending(s.calls, ip) {
      PendingStays(s.calls, t.calls, |s.calls|, ip);
    }
  }

  lemma {:induction false} EveryRunZeroPending(events: seq<Event>, states: seq<System>, ip: Ip, i: nat)
    requires IsRun(events, states) && i < |states|
    ensures ZeroIsPending(states[i], ip)
  {
    if i > 0 {
      hide ZeroIsPending, Happen;
      EveryRunZeroPending(events, states, ip, i - 1);
      assert HappensTo(states[i - 1], events[i - 1], states[i]);
      HappenZero(states[i - 1], events[i - 1], ip);
    }
  }

  /** Whenever no call is in flight, the count of an address is right, with no zero entry, if and
      only if the mistimed steps of the run cancel out. */
  lemma QuiescentIpExactIff(events: seq<Event>, states: seq<System>, ip: Ip, i: nat)
    requires IsRun(events, states) && i < |states| && Quiescent(states[i])
    ensures IpMatchesAt(states[i].reg.ipConnections, states[i].reg.peers, ip) <==> Drift(events, states, ip, i) == 0
    ensures IpCount(states[i].reg, ip) == |AtIp(states[i].reg.peers, ip)| + Drift(events, states, ip, i)
  {
    EveryRunAccounted(events, states, ip, i);
    NothingDue(DueIp(ip), states[i].calls);
    EveryRunZeroPending(events, states, ip, i);
  }

  // ---------- a schedule that never drifts ----------

  predicate Mentions(steps: seq<Action>, ip: Ip) { exists a :: a in steps && Touches(a, ip) }

  /** At most one call in flight still has to touch the count of `ip`. */
  ghost predicate Alone(s: System, ip: Ip) {
    forall c, d :: 0 <= c < d < |s.calls| && Mentions(s.calls[c], ip) ==> !Mentions(s.calls[d], ip)
  }

  /** Run without interruption from a count of n, the steps never miss. */
  predicate Clean(n: nat, steps: seq<Action>, ip: Ip)
    decreases |steps|
  {
    if steps == [] then true
    else if steps[0] == IpUp(ip) then Clean(n + 1, steps[1..], ip)
    else if steps[0] == IpDown(ip) then n > 0 && Clean(n - 1, steps[1..], ip)
    else if steps[0] == IpDrop(ip) then n == 0 && Clean(n, steps[1..], ip)
    else Clean(n, steps[1..], ip)
  }

  ghost predicate AllClean(s: System, ip: Ip) {
    forall c :: 0 <= c < |s.calls| ==> Clean(IpCount(s.reg, ip), s.calls[c], ip)
  }

  lemma {:induction false} SilentIsClean(n: nat, steps: seq<Action>, ip: Ip)
    requires !Mentions(steps, ip)
    ensures Clean(n, steps, ip) && Due(DueIp(ip), steps) == 0
  {
    if steps != [] {
      assert steps[0] in steps;
      forall a | a in steps[1..] ensures a in steps {}
      SilentIsClean(n, steps[1..], ip);
    }
  }

  lemma CleanCons(n: nat, a: Action, rest: seq<Action>, ip: Ip)
    ensures Clean(n, [a] + rest, ip) == (
              if a == IpUp(ip) then Clean(n + 1, rest, ip)
              else if a == IpDown(ip) then n > 0 && Clean(n - 1, rest, ip)
              else if a == IpDrop(ip) then n == 0 && Clean(n, rest, ip)
              else Clean(n, rest, ip))
  {
    assert ([a] + rest)[1..] == rest;
  }

  lemma AttachClean(n: nat, id: NodeId, p: PeerState, ip: Ip)
    ensures Clean(n, Attach(id, p), ip)
  {
    var s4 := [ConnectingDown] + [];
    var s3 := [AddOutbound(Outgoing(p))] + s4;
    var s2 := [IpUp(p.addr.ip)] + s3;
    hide Clean;
    var m := if p.addr.ip == ip then n + 1 else n;
    assert Clean(m, [], ip) by { SilentIsClean(m, [], ip); }
    CleanCons(m, ConnectingDown, [], ip);
    CleanCons(m, AddOutbound(Outgoing(p)), s4, ip);
    CleanCons(n, IpUp(p.addr.ip), s3, ip);
    CleanCons(n, SetAddr(p.addr, id), s2, ip);
  }

  lemma DetachClean(n: nat, p: PeerState, rest: seq<Action>, ip: Ip)
    requires p.addr.ip == ip ==> n > 0
    requires Clean(if p.addr.ip == ip then n - 1 else n, rest, ip)
    ensures Clean(n, Detach(p, rest), ip)
  {
    hide Clean;
    var m := if p.addr.ip == ip then n - 1 else n;
    CleanCons(m, AddOutbound(-Outgoing(p)), rest, ip);
    CleanCons(n, IpDown(p.addr.ip), [AddOutbound(-Outgoing(p))] + rest, ip);
    CleanCons(n, RemoveAddr(p.addr), [IpDown(p.addr.ip)] + ([AddOutbound(-Outgoing(p))] + rest), ip);
  }

  /** A call that starts when the count is right is clean. */
  lemma BeginsClean(peers: map<NodeId, PeerState>, id: NodeId, p: PeerState, n: nat, ip: Ip)
    requires n == |AtIp(peers, ip)|
    ensures Clean(n, AfterInsert(id, p, peers), ip) && Clean(n, AfterRemove(id, peers), ip)
  {
    if id in peers {
      assert peers[id].addr.ip == ip ==> id in AtIp(peers, ip);
      var m := if peers[id].addr.ip == ip then n - 1 else n;
      hide Clean, Attach, Detach, AtIp;
      AttachClean(m, id, p, ip);
      DetachClean(n, peers[id], Attach(id, p), ip);
      CleanCons(m, AddConnected(-1), [], ip);
      SilentIsClean(m, [], ip);
      DetachClean(n, peers[id], [AddConnected(-1)] + [], ip);
    } else {
      hide Clean, Attach;
      AttachClean(n, id, p, ip);
      CleanCons(n, AddConnected(1), Attach(id, p), ip);
      SilentIsClean(n, [], ip);
    }
  }

  lemma ExecClean(r: Registry, a: Action, rest: seq<Action>, ip: Ip)
    requires Clean(IpCount(r, ip), [a] + rest, ip)
    ensures StepDrift(r, a, ip) == 0 && Clean(IpCount(Exec(r, a).0, ip), Exec(r, a).1 + rest, ip)
  {
    CleanCons(IpCount(r, ip), a, rest, ip);
    assert [] + rest == rest;
    if a.IpDown? {
      CleanCons(IpCount(Exec(r, a).0, ip), IpDrop(a.ip), rest, ip);
    }
  }

  lemma UntouchedCount(r: Registry, a: Action, ip: Ip)
    requires !Touches(a, ip)
    ensures IpCount(Exec(r, a).0, ip) == IpCount(r, ip) && StepDrift(r, a, ip) == 0
  {
  }

  lemma AdvanceClean(s: System, c: nat, ip: Ip)
    requires AllClean(s, ip) && Alone(s, ip) && Enabled(s, Advance(c))
    ensures AllClean(Happen(s, Advance(c)), ip) && EventDrift(s, Advance(c), ip) == 0
  {
    var t := Happen(s, Advance(c));
    var a, rest := s.calls[c][0], s.calls[c][1..];
    assert s.calls[c] == [a] + rest;
    assert Clean(IpCount(s.reg, ip), s.calls[c], ip);
    ExecClean(s.reg, a, rest, ip);
    hide Exec, Clean;
    forall d | 0 <= d < |t.calls| ensures Clean(IpCount(t.reg, ip), t.calls[d], ip) {
      if d != c {
        assert Clean(IpCount(s.reg, ip), s.calls[d], ip);
        if Touches(a, ip) {
          assert a in s.calls[c];
          SilentIsClean(IpCount(t.reg, ip), s.calls[d], ip);
        } else {
          UntouchedCount(s.reg, a, ip);
        }
      }
    }
  }

  lemma {:induction false} SilentOwesNothing(calls: seq<seq<Action>>, ip: Ip)
    requires forall c :: 0 <= c < |calls| ==> !Mentions(calls[c], ip)
    ensures AllDue(DueIp(ip), calls) == 0
  {
    if calls != [] {
      var n := |calls| - 1;
      SilentOwesNothing(calls[..n], ip);
      SilentIsClean(0, calls[n], ip);
    }
  }

  /** A call that starts: either it does not touch `ip`, or no other call does and the count is right. */
  lemma BeginClean(s: System, steps: seq<Action>, peers: map<NodeId, PeerState>, ip: Ip)
    requires AllClean(s, ip) && Accounted(s, ip, 0)
    requires Alone(System(s.reg.(peers := peers), s.calls + [steps]), ip)
    requires IpCount(s.reg, ip) == |AtIp(s.reg.peers, ip)| ==> Clean(IpCount(s.reg, ip), steps, ip)
    ensures AllClean(System(s.reg.(peers := peers), s.calls + [steps]), ip)
  {
    hide Clean, Mentions, AtIp;
    var t := System(s.reg.(peers := peers), s.calls + [steps]);
    if Mentions(steps, ip) {
      forall c | 0 <= c < |s.calls| ensures !Mentions(s.calls[c], ip) {
        assert t.calls[c] == s.calls[c] && t.calls[|s.calls|] == steps;
      }
      SilentOwesNothing(s.calls, ip);
    } else {
      SilentIsClean(IpCount(s.reg, ip), steps, ip);
    }
    forall c | 0 <= c < |t.calls| ensures Clean(IpCount(t.reg, ip), t.calls[c], ip) {
      if c < |s.calls| { assert Clean(IpCount(s.reg, ip), s.calls[c], ip); }
    }
  }

  lemma HappenClean(s: System, e: Event, ip: Ip)
    requires AllClean(s, ip) && Accounted(s, ip, 0) && Enabled(s, e)
    requires Alone(s, ip) && Alone(Happen(s, e), ip)
    ensures AllClean(Happen(s, e), ip) && EventDrift(s, e, ip) == 0
  {
    hide AllClean, Accounted, Alone, AtIp, Clean, AfterInsert, AfterRemove;
    var n := IpCount(s.reg, ip);
    match e
    case BeginRegister(id, p) =>
      if n == |AtIp(s.reg.peers, ip)| { BeginsClean(s.reg.peers, id, p, n, ip); }
      BeginClean(s, AfterInsert(id, p, s.reg.peers), s.reg.peers[id := p], ip);
    case BeginRemove(id) =>
      if n == |AtIp(s.reg.peers, ip)| { BeginsClean(s.reg.peers, id, PeerState(Addr(ip, 0), false), n, ip); }
      BeginClean(s, AfterRemove(id, s.reg.peers), s.reg.peers - {id}, ip);
    case Advance(c) =>
      AdvanceClean(s, c, ip);
  }

  /** If no two calls that touch an address are ever in flight together, its count never drifts,
      however calls for other addresses interleave with them. */
  lemma {:induction false} AloneNeverDrifts(events: seq<Event>, states: seq<System>, ip: Ip, i: nat)
    requires IsRun(events, states) && i < |states|
    requires forall k :: 0 <= k <= i ==> Alone(states[k], ip)
    ensures Drift(events, states, ip, i) == 0 && AllClean(states[i], ip)
  {
    hide AllClean, Alone, IsRun;
    if i > 0 {
      AloneNeverDrifts(events, states, ip, i - 1);
      AloneStep(events, states, ip, i);
    } else {
      NothingBegun(events, states, ip);
    }
  }

  lemma NothingBegun(events: seq<Event>, states: seq<System>, ip: Ip)
    requires IsRun(events, states)
    ensures Drift(events, states, ip, 0) == 0 && AllClean(states[0], ip)
  {
  }

  lemma AloneStep(events: seq<Event>, states: seq<System>, ip: Ip, i: nat)
    requires IsRun(events, states) && 0 < i < |states|
    requires Alone(states[i - 1], ip) && Alone(states[i], ip) && AllClean(states[i - 1], ip)
    requires Drift(events, states, ip, i - 1) == 0
    ensures Drift(events, states, ip, i) == 0 && AllClean(states[i], ip)
  {
    hide AllClean, Alone, Happen, Accounted;
    EveryRunAccounted(events, states, ip, i - 1);
    assert HappensTo(states[i - 1], events[i - 1], states[i]);
    HappenClean(states[i - 1], events[i - 1], ip);
  }

  // ---------- both ways of drifting happen ----------

  /** A node is removed while its registration is still to raise the count: the removal finds
      nothing to lower, and the count of an address without peers stays at one. */
  lemma OverlapGainsIpCount()
    ensures exists s :: Reachable(s) && Quiescent(s) && s.reg.peers == map[] && s.reg.ipConnections == map[7 := 1]
  {
    hide Reachable, Finish;
    var a := PeerState(Addr(7, 1), false);
    var s0 := System(NewRegistry(), []);
    StartReachable();
    var s1 := Happen(s0, BeginRegister(1, a));
    ReachableStep(s0, BeginRegister(1, a));
    var s2 := Happen(s1, BeginRemove(1));
    ReachableStep(s1, BeginRemove(1));
    assert s2.reg.peers == map[] && s2.reg.ipConnections == map[] && |s2.calls| == 2;
    assert s2.calls[1] == Detach(a, [AddConnected(-1)] + []);
    var s3 := System(Finish(s2.reg, s2.calls[1]), s2.calls[1 := []]);
    ReachableFinish(s2, 1);
    var r := s2.reg.(addrToPeer := s2.reg.addrToPeer - {a.addr}, outbound := Wrap(s2.reg.outbound - Outgoing(a)));
    FinishDetach(s2.reg, a, [AddConnected(-1)] + []);
    FinishSimple(r, AddConnected(-1), []);
    FinishNothing(r.(connected := Wrap(r.connected - 1)));
    assert s3.reg.ipConnections == map[] && s3.reg.peers == map[];
    assert s3.calls[0] == [AddConnected(1)] + Attach(1, a);
    var s4 := System(Finish(s3.reg, s3.calls[0]), s3.calls[0 := []]);
    ReachableFinish(s3, 0);
    FinishSimple(s3.reg, AddConnected(1), Attach(1, a));
    FinishAttach(s3.reg.(connected := Wrap(s3.reg.connected + 1)), 1, a);
    assert Quiescent(s4);
  }

  lemma FinishNothing(r: Registry)
    ensures Finish(r, []) == r
  {
  }
}
