/** What the four messages do, said in terms of what a manager holds before and after: when a pid_b is
    accepted, what the others answer, what is announced to the border routers, and how a negotiation
    that nothing disturbs comes to its end. */
module Reactions {
  import opened Words
  import opened LinkTable
  import opened PidChain
  import opened Negotiation
  import opened Network
  import opened Agreement
  import Resolver

  /** Some known neighbour uses the PID. */
  ghost predicate Used(rm: RmState, pid: uint32) {
    exists eid :: Knows(rm.chain, eid) && pid in PidsFor(rm, eid)
  }

  ghost predicate NoneUsed(rm: RmState, pids: seq<uint32>) {
    forall j :: 0 <= j < |pids| ==> !Used(rm, pids[j])
  }

  /** The message brings the negotiation with `from` to an end: an ack, or a pid_b none of whose PIDs,
      as far as they are read, is in use at any neighbour, `from` included. */
  ghost predicate Settles(rm: RmState, from: Nid, msg: Msg)
    requires Receivable(rm, from, msg)
  {
    && Knows(rm.chain, from)
    && (msg.Ack? || (msg.PidB? && NoneUsed(rm, msg.pids[..|PidsFor(rm, from)|])))
  }

  /** `m` proposes each PID and the timer plus the number, in 32-bit arithmetic and modulo 100. */
  predicate ProposedFrom(m: Msg, time: uint32, pids: seq<uint32>, number: nat) {
    && m.PidA?
    && m.time == (time + number) % TWO_32 % 100
    && |m.pids| == |pids|
    && forall j :: 0 <= j < |pids| ==> m.pids[j] == (pids[j] + number) % TWO_32 % 100
  }

  /** A manager that changed from `rm` to `rm'` now holds the timer and the list for `eid`. */
  ghost predicate Holds(rm': RmState, eid: Nid, time: uint32, pids: seq<uint32>) {
    && Knows(rm'.chain, eid) && TimeFor(rm', eid) == time && PidsFor(rm', eid) == pids
    && PidsOf(rm'.table, rm'.host, eid) == pids
  }

  lemma InUseIff(rm: RmState, pids: seq<uint32>)
    requires WellFormed(rm)
    ensures InUse(pids, rm.chain) <==> !NoneUsed(rm, pids)
  {
    if InUse(pids, rm.chain) {
      var k :| 0 <= k < |rm.chain| && Resolver.Conflict(pids, rm.chain[k].pids);
      var j, i :| 0 <= j < |pids| && 0 <= i < |rm.chain[k].pids| && pids[j] == rm.chain[k].pids[i];
      assert Find(rm.chain, rm.chain[k].eid) == k;
      assert pids[j] in PidsFor(rm, rm.chain[k].eid);
    }
  }

  // ---------- the four messages ----------

  /** A change_request is answered with a proposal made from what the manager holds. */
  lemma ChangeRequestAnswered(rm: RmState, from: Nid, number: nat)
    requires WellFormed(rm) && Knows(rm.chain, from) && number <= 100
    ensures var after := React(rm, from, ChangeRequest, number);
      && after.rm == rm && |after.replies| == 1
      && ProposedFrom(after.replies[0], TimeFor(rm, from), PidsFor(rm, from), number)
  {
    CountFits(rm, Find(rm.chain, from));
  }

  /** The agreed list is the part of the proposed one that is read, moved on past every PID of the table. */
  ghost predicate ClearlyMoved(rm: RmState, eid: Nid, pids: seq<uint32>, step: nat, agreed: seq<uint32>) {
    && Knows(rm.chain, eid) && |agreed| == |PidsFor(rm, eid)| <= |pids|
    && Resolver.MovedWithin(pids[..|agreed|], TakenBy(rm.table), step, agreed)
    && forall j, i :: 0 <= j < |agreed| && 0 <= i < |rm.table| ==> agreed[j] != rm.table[i].pid
  }

  /** A pid_a is answered with its timer and its list moved on by as many steps as it takes to leave all
      PIDs of the table behind; both are kept as the pending proposal, and nothing is installed. */
  lemma PidAAnswered(rm: RmState, from: Nid, time: uint32, pids: seq<uint32>, number: nat)
    requires WellFormed(rm) && Knows(rm.chain, from) && |PidsFor(rm, from)| <= |pids| && 1 <= number <= 101
    ensures var after := React(rm, from, PidA(time, pids), number);
      && after.rm.chain == rm.chain && after.rm.table == rm.table && after.rm.host == rm.host
      && |after.replies| == 1 && after.replies[0].PidB? && after.replies[0].time == time == after.rm.pendingTime
      && ClearlyMoved(rm, from, pids, number, after.replies[0].pids)
      && Pending(after.rm, from, false) == after.replies[0].pids
  {
    var k, n := Find(rm.chain, from), |PidsFor(rm, from)|;
    CountFits(rm, k);
    Fits(rm, k);
    AnyProposalStorable(rm, k, pids, number);
    var agreed := Resolver.Resolve(pids[..n], TakenBy(rm.table), number);
    ReactionFrame(rm, from, PidA(time, pids), number, from);
    forall j, i | 0 <= j < n && 0 <= i < |rm.table|
      ensures agreed[j] != rm.table[i].pid
    {
      assert TakenBy(rm.table)[i] == rm.table[i].pid;
    }
  }

  /** A pid_b is acknowledged if and only if none of the PIDs read is in use at any neighbour, the sender
      included; then its timer and list are installed. Otherwise the answer is a proposal made from the
      rejected list, and nothing changes. */
  lemma PidBAcceptedIff(rm: RmState, from: Nid, time: uint32, pids: seq<uint32>, number: nat)
    requires WellFormed(rm) && Knows(rm.chain, from) && |PidsFor(rm, from)| <= |pids| && 1 <= number <= 101
    ensures var got := pids[..|PidsFor(rm, from)|];
            var after := React(rm, from, PidB(time, pids), number);
      && (NoneUsed(rm, got) <==> after.replies == [Ack])
      && (NoneUsed(rm, got) ==> Holds(after.rm, from, time, got) && after.rm.pending == rm.pending)
      && (!NoneUsed(rm, got) ==>
            after.rm == rm && |after.replies| == 1 && ProposedFrom(after.replies[0], time, got, number))
  {
    InUseIff(rm, pids[..|PidsFor(rm, from)|]);
    CountFits(rm, Find(rm.chain, from));
    ReactionFrame(rm, from, PidB(time, pids), number, from);
  }

  /** An ack installs what the buffers hold, and is not answered. */
  lemma AckInstalls(rm: RmState, from: Nid, number: nat)
    requires WellFormed(rm) && Knows(rm.chain, from) && 1 <= number <= 101
    ensures var after := React(rm, from, Ack, number);
      && after.replies == [] && after.rm.pending == rm.pending && after.rm.pendingTime == rm.pendingTime
      && Holds(after.rm, from, rm.pendingTime, Pending(rm, from, false))
  {
    CountFits(rm, Find(rm.chain, from));
    Fits(rm, Find(rm.chain, from));
    ReactionFrame(rm, from, Ack, number, from);
  }

  // ---------- what is announced ----------

  /** Nothing but the PID differs between the rows. */
  ghost predicate SameButPids(table: seq<Row>, table': seq<Row>) {
    |table'| == |table| && forall i :: 0 <= i < |table| ==> table'[i].(pid := 0) == table[i].(pid := 0)
  }

  lemma {:induction false} SamePaths(table: seq<Row>, table': seq<Row>, host: Nid, eid: Nid)
    requires SameButPids(table, table')
    ensures SameButPids(RowsOf(table, host, eid), RowsOf(table', host, eid))
  {
    hide PidsOf;
    if table != [] {
      var n := |table| - 1;
      SamePaths(table[..n], table'[..n], host, eid);
      assert table'[n].(pid := 0) == table[n].(pid := 0);
    }
  }

  lemma {:induction false} SameRouters(table: seq<Row>, table': seq<Row>, host: Nid)
    requires SameButPids(table, table')
    ensures Routers(table', host) == Routers(table, host)
  {
    if table != [] {
      var n := |table| - 1;
      SameRouters(table[..n], table'[..n], host);
      assert table'[n].(pid := 0) == table[n].(pid := 0);
    }
  }

  lemma InstallPaths(rm: RmState, k: nat, time: uint32, pids: seq<uint32>)
    requires WellFormed(rm) && k < |rm.chain| && |pids| == |rm.chain[k].pids|
    requires Count(rm.table, rm.host, rm.chain[k].eid, RowsSeen(rm.table)) <= |pids|
    ensures var table' := Install(rm, k, time, pids).table;
      && SameButPids(RowsOf(rm.table, rm.host, rm.chain[k].eid), RowsOf(table', rm.host, rm.chain[k].eid))
      && Routers(table', rm.host) == Routers(rm.table, rm.host)
  {
    WriteBackGroups(rm.chain, rm.table, rm.host, k, time, pids);
    SamePaths(rm.table, Install(rm, k, time, pids).table, rm.host, rm.chain[k].eid);
    SameRouters(rm.table, Install(rm, k, time, pids).table, rm.host);
  }

  /** What such a message leaves behind, as far as announcing goes. */
  lemma Settled(rm: RmState, from: Nid, msg: Msg, number: nat)
    requires WellFormed(rm) && Receivable(rm, from, msg) && LegalNumber(msg, number) && Settles(rm, from, msg)
    ensures var re := React(rm, from, msg, number);
      && WellFormed(re.rm) && re.rm.host == rm.host
      && Knows(re.rm.chain, from) && |PidsFor(re.rm, from)| == |PidsFor(rm, from)|
      && re.announced == AnnounceUpTo(re.rm.table, rm.host, from, |re.rm.table|)
      && SameButPids(RowsOf(rm.table, rm.host, from), RowsOf(re.rm.table, rm.host, from))
      && Routers(re.rm.table, rm.host) == Routers(rm.table, rm.host)
  {
    hide AnnounceUpTo, RowsOf, Routers, SameButPids, PidsOf;
    var k := Find(rm.chain, from);
    CountFits(rm, k);
    Fits(rm, k);
    ReactionFrame(rm, from, msg, number, from);
    if msg.PidB? {
      InUseIff(rm, msg.pids[..|rm.chain[k].pids|]);
      InstallPaths(rm, k, msg.time, msg.pids[..|rm.chain[k].pids|]);
    } else {
      InstallPaths(rm, k, rm.pendingTime, PendingFor(rm, from));
    }
  }

  /** A reaction that settles the list announces one item for each path to the neighbour and each border
      router; every other reaction announces nothing. */
  lemma AnnouncesIff(rm: RmState, from: Nid, msg: Msg, number: nat)
    requires WellFormed(rm) && Receivable(rm, from, msg) && LegalNumber(msg, number)
    ensures var announced := React(rm, from, msg, number).announced;
      && (!Settles(rm, from, msg) ==> announced == [])
      && (Settles(rm, from, msg) ==> |announced| == |PidsFor(rm, from)| * |Routers(rm.table, rm.host)|)
  {
    if Settles(rm, from, msg) {
      hide React;
      Settled(rm, from, msg, number);
      var rm' := React(rm, from, msg, number).rm;
      AnnounceLength(rm'.table, rm.host, from, |rm'.table|);
      CountFits(rm', Find(rm'.chain, from));
    } else if Knows(rm.chain, from) {
      CountFits(rm, Find(rm.chain, from));
      if msg.PidB? {
        InUseIff(rm, msg.pids[..|PidsFor(rm, from)|]);
      }
    }
  }

  /** With h border routers, announcement number c*h+q of such a reaction tells router q the c-th PID now
      held for the neighbour, with the two addresses of its c-th path and two change periods to live. */
  lemma AnnouncedAt(rm: RmState, from: Nid, msg: Msg, number: nat, c: nat, q: nat)
    requires WellFormed(rm) && Receivable(rm, from, msg) && LegalNumber(msg, number) && Settles(rm, from, msg)
    requires c < |PidsFor(rm, from)| && q < |Routers(rm.table, rm.host)|
    ensures var after, path := React(rm, from, msg, number), RowsOf(rm.table, rm.host, from);
            var at := c * |Routers(rm.table, rm.host)| + q;
      && Knows(after.rm.chain, from) && c < |PidsFor(after.rm, from)| && c < |path| && at < |after.announced|
      && after.announced[at] ==
         Announcement(2, path[c].ip1, PidsFor(after.rm, from)[c], path[c].ip2, Routers(rm.table, rm.host)[q])
  {
    hide React, Settles, PidsOf, AnnounceUpTo, Routers;
    Settled(rm, from, msg, number);
    var rm' := React(rm, from, msg, number).rm;
    CountFits(rm', Find(rm'.chain, from));
    ChainPids(rm', from);
    assert rm'.table[..|rm'.table|] == rm'.table;
    AnnouncedOnce(rm'.table, rm.host, from, |rm'.table|, c, q);
    assert RowsOf(rm'.table, rm.host, from)[c].(pid := 0) == RowsOf(rm.table, rm.host, from)[c].(pid := 0);
  }

  /** The border routers are told at the inner addresses of the rows that start at the local domain. */
  lemma {:induction false} RoutersAreLocal(table: seq<Row>, host: Nid, ip: uint32)
    ensures ip in Routers(table, host) <==> exists i :: 0 <= i < |table| && table[i].eid1 == host && table[i].ip1 == ip
  {
    if table != [] {
      var n := |table| - 1;
      RoutersAreLocal(table[..n], host, ip);
      if ip in Routers(table[..n], host) {
        var i :| 0 <= i < n && table[..n][i].eid1 == host && table[..n][i].ip1 == ip;
        assert table[i].ip1 == ip;
      } else if i :| 0 <= i < n && table[i].eid1 == host && table[i].ip1 == ip {
        assert table[..n][i].ip1 == ip;
      }
    }
  }

  // ---------- a delivery, and a negotiation that runs to its end ----------

  /** A pid_b that reaches a manager: either the ack goes back and the receiver holds the list and timer
      it carried, or a proposal goes back and no manager has changed. */
  lemma PidBDelivered(net: Net, a: Nid, b: Nid, number: nat)
    requires Shape(net) && Enabled(net, Deliver(a, b, number)) && a != b && Chan(net, a, b)[0].PidB?
    ensures var m, net' := Chan(net, a, b)[0], Step(net, Deliver(a, b, number));
      && Chan(net', a, b) == Chan(net, a, b)[1..] && b in net'.rms
      && Chan(net, b, a) <= Chan(net', b, a) && |Chan(net', b, a)| == |Chan(net, b, a)| + 1
      && var reply := Chan(net', b, a)[|Chan(net, b, a)|];
         if NoneUsed(net.rms[b], m.pids) then
           reply == Ack && Holds(net'.rms[b], a, m.time, m.pids) && net'.rms == net.rms[b := net'.rms[b]]
         else
           ProposedFrom(reply, m.time, m.pids, number) && net'.rms == net.rms
  {
    var m := Chan(net, a, b)[0];
    FirstMessage(net, a, b);
    DeliverEffect(net, a, b, number);
    PidBAcceptedIff(net.rms[b], a, m.time, m.pids, number);
    assert m.pids[..|PidsFor(net.rms[b], a)|] == m.pids;
    assert Step(net, Deliver(a, b, number)).rms == net.rms[b := React(net.rms[b], a, m, number).rm];
  }

  /** No message is under way between the two managers. */
  predicate Quiet(net: Net, a: Nid, b: Nid) {
    Chan(net, a, b) == [] && Chan(net, b, a) == []
  }

  lemma OneEvent(net: Net, ev: Event, rest: seq<Event>)
    requires Enabled(net, ev) && ValidRun(Step(net, ev), rest)
    ensures ValidRun(net, [ev] + rest) && Run(net, [ev] + rest) == Run(Step(net, ev), rest)
  {
    assert ([ev] + rest)[1..] == rest;
  }

  /** `m` is all that is under way between the two managers, from `a` to `b`. */
  predicate OnlyMessage(net: Net, a: Nid, b: Nid, m: Msg) {
    Chan(net, a, b) == [m] && Chan(net, b, a) == []
  }

  /** What a delivery of the only message leaves behind. */
  lemma OnlyDelivered(net: Net, a: Nid, b: Nid, m: Msg, number: nat)
    requires Shape(net) && a in net.rms && b in net.rms && a != b
    requires OnlyMessage(net, a, b, m) && LegalNumber(m, number)
    ensures Enabled(net, Deliver(a, b, number)) && WellFormed(net.rms[b]) && Receivable(net.rms[b], a, m)
    ensures var net', re := Step(net, Deliver(a, b, number)), React(net.rms[b], a, m, number);
      && Shape(net') && net'.rms == net.rms[b := re.rm]
      && Chan(net', a, b) == [] && Chan(net', b, a) == re.replies
  {
    NeverStuck(net, a, b, number);
    StepShape(net, Deliver(a, b, number));
    DeliverEffect(net, a, b, number);
    assert [] + React(net.rms[b], a, m, number).replies == React(net.rms[b], a, m, number).replies;
  }

  lemma RequestSent(net: Net, s: Nid, r: Nid)
    requires Shape(net) && s in net.rms && s != r && Sponsors(net.rms[s], r) && Quiet(net, s, r)
    ensures var net' := Step(net, Request(s, r));
      Shape(net') && net'.rms == net.rms && OnlyMessage(net', s, r, ChangeRequest)
  {
    StepShape(net, Request(s, r));
    StepChannel(net, Request(s, r), s, r);
    StepChannel(net, Request(s, r), r, s);
  }

  /** The link from a sponsor to a responder, both managers of the network. */
  predicate SponsorLink(net: Net, s: Nid, r: Nid) {
    s in net.rms && r in net.rms && s != r && Sponsors(net.rms[s], r) && Knows(net.rms[r].chain, s)
  }

  /** The responder's answer to the request: all that is under way is its first proposal. */
  lemma FirstProposal(net: Net, s: Nid, r: Nid, n1: nat)
    requires Shape(net) && SponsorLink(net, s, r) && Quiet(net, s, r) && n1 <= 100
    ensures Enabled(net, Request(s, r)) && Enabled(Step(net, Request(s, r)), Deliver(s, r, n1))
    ensures var net' := Step(Step(net, Request(s, r)), Deliver(s, r, n1));
      && Shape(net') && net'.rms == net.rms && Chan(net', r, s) != [] && var m := Chan(net', r, s)[0];
      && OnlyMessage(net', r, s, m) && ProposedFrom(m, TimeFor(net.rms[r], s), PidsFor(net.rms[r], s), n1)
  {
    hide React, WellFormed, Shape;
    RequestSent(net, s, r);
    ManagersOf(net, s, r);
    OnlyDelivered(Step(net, Request(s, r)), s, r, ChangeRequest, n1);
    ChangeRequestAnswered(net.rms[r], s, n1);
  }

  lemma ManagersOf(net: Net, s: Nid, r: Nid)
    requires Shape(net) && s in net.rms && r in net.rms && Knows(net.rms[r].chain, s)
    ensures WellFormed(net.rms[s]) && WellFormed(net.rms[r])
    ensures Knows(net.rms[s].chain, r) && |PidsFor(net.rms[s], r)| == |PidsFor(net.rms[r], s)|
  {
    assert ManagerOk(net, s) && ManagerOk(net, r) && LinkShape(net, s, r);
  }

  /** All that is under way is the sponsor's offer of what it has pending. */
  ghost predicate Offered(net: Net, s: Nid, r: Nid, m: Msg) {
    && m.PidB? && OnlyMessage(net, s, r, m)
    && s in net.rms && WellFormed(net.rms[s]) && Knows(net.rms[s].chain, r)
    && m == PidB(net.rms[s].pendingTime, Pending(net.rms[s], r, false))
  }

  /** The sponsor's answer to a proposal. */
  lemma Offer(net: Net, s: Nid, r: Nid, m: Msg, n2: nat)
    requires Shape(net) && s in net.rms && r in net.rms && s != r && Knows(net.rms[r].chain, s)
    requires OnlyMessage(net, r, s, m) && m.PidA? && 1 <= n2 <= 101
    ensures Enabled(net, Deliver(r, s, n2))
    ensures var net' := Step(net, Deliver(r, s, n2));
      && Shape(net') && s in net'.rms && net'.rms == net.rms[s := net'.rms[s]]
      && Chan(net', s, r) != [] && Offered(net', s, r, Chan(net', s, r)[0])
      && Chan(net', s, r)[0].time == m.time && ClearlyMoved(net.rms[s], r, m.pids, n2, Chan(net', s, r)[0].pids)
      && PidsFor(net'.rms[s], r) == PidsFor(net.rms[s], r) && TimeFor(net'.rms[s], r) == TimeFor(net.rms[s], r)
  {
    hide React, Shape;
    ManagersOf(net, s, r);
    OnlyDelivered(net, r, s, m, n2);
    PidAAnswered(net.rms[s], r, m.time, m.pids, n2);
    ReactionFrame(net.rms[s], r, m, n2, r);
  }

  /** What becomes of an offer: the responder takes it and the sponsor gets the ack, or the responder
      rejects it and the sponsor makes the next offer. */
  lemma OfferAnswered(net: Net, s: Nid, r: Nid, m: Msg, n3: nat, n4: nat)
    requires Shape(net) && r in net.rms && s != r && Offered(net, s, r, m) && Knows(net.rms[r].chain, s)
    requires 1 <= n3 <= 101 && 1 <= n4 <= 101
    ensures Enabled(net, Deliver(s, r, n3)) && Enabled(Step(net, Deliver(s, r, n3)), Deliver(r, s, n4))
    ensures var end := Step(Step(net, Deliver(s, r, n3)), Deliver(r, s, n4));
      && Shape(end) && s in end.rms && r in end.rms
      && if NoneUsed(net.rms[r], m.pids) then
           && Quiet(end, s, r) && end.rms == net.rms[r := end.rms[r]][s := end.rms[s]]
           && Holds(end.rms[s], r, m.time, m.pids) && Holds(end.rms[r], s, m.time, m.pids)
         else
           && end.rms == net.rms[s := end.rms[s]] && Chan(end, s, r) != [] && Offered(end, s, r, Chan(end, s, r)[0])
           && Chan(end, s, r)[0].time == (m.time + n3) % TWO_32 % 100
           && PidsFor(end.rms[s], r) == PidsFor(net.rms[s], r) && TimeFor(end.rms[s], r) == TimeFor(net.rms[s], r)
  {
    hide React, Shape, WellFormed, PidsOf, NoneUsed, Receivable, ClearlyMoved, Find;
    ManagersOf(net, s, r);
    OnlyDelivered(net, s, r, m, n3);
    var answered := Step(net, Deliver(s, r, n3));
    PidBDelivered(net, s, r, n3);
    OnlyStays(net, s, r, n3);
    if NoneUsed(net.rms[r], m.pids) {
      OnlyDelivered(answered, r, s, Ack, n4);
      AckInstalls(net.rms[s], r, n4);
    } else {
      Offer(answered, s, r, Chan(answered, r, s)[0], n4);
    }
  }

  lemma OnlyStays(net: Net, s: Nid, r: Nid, n: nat)
    requires Shape(net) && s in net.rms && r in net.rms && Enabled(net, Deliver(s, r, n)) && s != r
    requires |Chan(net, s, r)| == 1 && Chan(net, r, s) == []
    ensures var net' := Step(net, Deliver(s, r, n));
      && s in net'.rms && r in net'.rms && net'.rms[s] == net.rms[s] && Chan(net', s, r) == []
      && Knows(net'.rms[r].chain, s) == Knows(net.rms[r].chain, s)
  {
    DeliverEffect(net, s, r, n);
    StepManager(net, Deliver(s, r, n), r, s);
  }

  /** What the manager holds for the neighbour is the same in both states. */
  ghost predicate HoldsSame(rm: RmState, rm': RmState, eid: Nid) {
    && Knows(rm.chain, eid) && Knows(rm'.chain, eid)
    && PidsFor(rm', eid) == PidsFor(rm, eid) && TimeFor(rm', eid) == TimeFor(rm, eid)
  }

  /** The events of a round: request, proposal, offer, and the two answers to the offer. */
  function Round(s: Nid, r: Nid, n1: nat, n2: nat, n3: nat, n4: nat): seq<Event> {
    [Request(s, r), Deliver(s, r, n1), Deliver(r, s, n2), Deliver(s, r, n3), Deliver(r, s, n4)]
  }

  lemma RoundRuns(net: Net, s: Nid, r: Nid, n1: nat, n2: nat, n3: nat, n4: nat)
    requires Enabled(net, Request(s, r)) && var net1 := Step(net, Request(s, r));
      && Enabled(net1, Deliver(s, r, n1)) && var net2 := Step(net1, Deliver(s, r, n1));
      && Enabled(net2, Deliver(r, s, n2)) && var net3 := Step(net2, Deliver(r, s, n2));
      && Enabled(net3, Deliver(s, r, n3)) && Enabled(Step(net3, Deliver(s, r, n3)), Deliver(r, s, n4))
    ensures ValidRun(net, Round(s, r, n1, n2, n3, n4))
    ensures var net2 := Step(Step(net, Request(s, r)), Deliver(s, r, n1));
            Run(net, Round(s, r, n1, n2, n3, n4)) ==
            Step(Step(Step(net2, Deliver(r, s, n2)), Deliver(s, r, n3)), Deliver(r, s, n4))
  {
    hide Enabled, Step;
    var net2 := Step(Step(net, Request(s, r)), Deliver(s, r, n1));
    var net3 := Step(net2, Deliver(r, s, n2));
    var net4 := Step(net3, Deliver(s, r, n3));
    OneEvent(net4, Deliver(r, s, n4), []);
    OneEvent(net3, Deliver(s, r, n3), [Deliver(r, s, n4)]);
    OneEvent(net2, Deliver(r, s, n2), [Deliver(s, r, n3), Deliver(r, s, n4)]);
    OneEvent(Step(net, Request(s, r)), Deliver(s, r, n1), [Deliver(r, s, n2), Deliver(s, r, n3), Deliver(r, s, n4)]);
    OneEvent(net, Request(s, r), [Deliver(s, r, n1), Deliver(r, s, n2), Deliver(s, r, n3), Deliver(r, s, n4)]);
  }

  /** A round that nothing disturbs. The responder proposes `m`, made from what it holds; the sponsor
      offers `pids`, moved on past every PID of its table. The round ends the negotiation, with the offered
      list and timer at both ends, if and only if no PID of the offer is in use at the responder.
      Otherwise both ends hold what they held and the next offer is under way. */
  lemma NegotiationRound(net: Net, s: Nid, r: Nid, n1: nat, n2: nat, n3: nat, n4: nat)
      returns (m: Msg, pids: seq<uint32>)
    requires Shape(net) && SponsorLink(net, s, r) && Quiet(net, s, r)
    requires n1 <= 100 && 1 <= n2 <= 101 && 1 <= n3 <= 101 && 1 <= n4 <= 101
    ensures ProposedFrom(m, TimeFor(net.rms[r], s), PidsFor(net.rms[r], s), n1)
    ensures ClearlyMoved(net.rms[s], r, m.pids, n2, pids)
    ensures ValidRun(net, Round(s, r, n1, n2, n3, n4))
    ensures var end := Run(net, Round(s, r, n1, n2, n3, n4));
      && s in end.rms && r in end.rms && end.rms == net.rms[r := end.rms[r]][s := end.rms[s]]
      && if NoneUsed(net.rms[r], pids) then
           Quiet(end, s, r) && Holds(end.rms[s], r, m.time, pids) && Holds(end.rms[r], s, m.time, pids)
         else
           && Chan(end, s, r) != [] && Offered(end, s, r, Chan(end, s, r)[0])
           && HoldsSame(net.rms[s], end.rms[s], r) && HoldsSame(net.rms[r], end.rms[r], s)
  {
    hide React, Shape, WellFormed, PidsOf, Sponsors, Enabled, Step;
    FirstProposal(net, s, r, n1);
    var net2 := Step(Step(net, Request(s, r)), Deliver(s, r, n1));
    m := Chan(net2, r, s)[0];
    Offer(net2, s, r, m, n2);
    var net3 := Step(net2, Deliver(r, s, n2));
    pids := Chan(net3, s, r)[0].pids;
    OfferAnswered(net3, s, r, Chan(net3, s, r)[0], n3, n4);
    RoundRuns(net, s, r, n1, n2, n3, n4);
  }
}
