/** A network of resource managers joined by lossless FIFO channels, and the shape of its reachable states:
    both ends know every link, messages fit their receivers, and none is ever stuck. */
module Network {
  import opened Words
  import opened LinkTable
  import opened PidChain
  import opened Negotiation

  datatype Net = Net(rms: map<Nid, RmState>, chan: map<(Nid, Nid), seq<Msg>>)

  /** The messages on their way from `a` to `b`, oldest first. */
  function Chan(net: Net, a: Nid, b: Nid): seq<Msg> {
    if (a, b) in net.chan then net.chan[(a, b)] else []
  }

  /** Either a sponsor starts a negotiation, or the oldest message of a channel is handled with
      some random number. */
  datatype Event = Request(sponsor: Nid, responder: Nid) | Deliver(from: Nid, to: Nid, number: nat)

  /** Some row leads from `host` to `eid` with `host` as the smaller end. */
  predicate SponsorRow(table: seq<Row>, host: Nid, eid: Nid) {
    exists i :: 0 <= i < |table| && Leads(table[i], host, eid) && CompareNid(table[i].eid1, table[i].eid2) <= 0
  }

  /** The test of the timer callback: a manager asks those neighbours to which it is the smaller end. */
  predicate Sponsors(rm: RmState, eid: Nid) {
    Knows(rm.chain, eid) && SponsorRow(rm.table, rm.host, eid)
  }

  ghost predicate Enabled(net: Net, ev: Event) {
    match ev
    case Request(s, r) => s in net.rms && Sponsors(net.rms[s], r)
    case Deliver(a, b, number) =>
      && b in net.rms && Chan(net, a, b) != []
      && WellFormed(net.rms[b])
      && Receivable(net.rms[b], a, Chan(net, a, b)[0])
      && LegalNumber(Chan(net, a, b)[0], number)
  }

  function SetChan(net: Net, a: Nid, b: Nid, msgs: seq<Msg>): Net {
    net.(chan := net.chan[(a, b) := msgs])
  }

  ghost function Step(net: Net, ev: Event): Net
    requires Enabled(net, ev)
  {
    match ev
    case Request(s, r) => SetChan(net, s, r, Chan(net, s, r) + [ChangeRequest])
    case Deliver(a, b, number) =>
      var reaction := React(net.rms[b], a, Chan(net, a, b)[0], number);
      var taken := SetChan(net, a, b, Chan(net, a, b)[1..]);
      SetChan(taken, b, a, Chan(taken, b, a) + reaction.replies).(rms := net.rms[b := reaction.rm])
  }

  ghost predicate ValidRun(net: Net, events: seq<Event>)
    decreases |events|
  {
    events == [] || (Enabled(net, events[0]) && ValidRun(Step(net, events[0]), events[1..]))
  }

  ghost function Run(net: Net, events: seq<Event>): Net
    requires ValidRun(net, events)
    decreases |events|
  {
    if events == [] then net else Run(Step(net, events[0]), events[1..])
  }

  // ---------- start-up ----------

  /** The sizes the fixed buffers of a manager allow. */
  ghost predicate FitsBuffers(table: seq<Row>, host: Nid) {
    && |table| < 256
    && |Build(Align(table, host), host)| <= MAX_NEIGHBOURS
    && forall eid :: |PidsOf(Align(table, host), host, eid)| <= MAX_PID_NUMBER
  }

  /** Every manager has loaded the same link table, aligned it to itself and built its chain; the
      proposal buffers hold anything; no message is under way. */
  ghost predicate Initial(net: Net, table: seq<Row>) {
    && net.chan == map[]
    && forall h :: h in net.rms ==>
         var rm := net.rms[h];
         && FitsBuffers(table, h)
         && rm.host == h && rm.table == Align(table, h) && rm.chain == Build(Align(table, h), h)
         && |rm.pending| == MAX_NEIGHBOURS
         && forall i :: 0 <= i < MAX_NEIGHBOURS ==> |rm.pending[i]| == PENDING_WIDTH
  }

  // ---------- shape of reachable states ----------

  ghost predicate ManagerOk(net: Net, h: Nid) {
    h in net.rms ==> WellFormed(net.rms[h]) && net.rms[h].host == h
  }

  /** Both ends know the link, with the same number of paths. */
  predicate LinkShape(net: Net, a: Nid, b: Nid) {
    a in net.rms && b in net.rms ==>
      && (Knows(net.rms[a].chain, b) <==> Knows(net.rms[b].chain, a))
      && (Knows(net.rms[a].chain, b) ==> |PidsFor(net.rms[a], b)| == |PidsFor(net.rms[b], a)|)
  }

  /** change_request and pid_b travel from the sponsor, pid_a and ack to it. */
  predicate RightWay(a: Nid, b: Nid, m: Msg) {
    if m.ChangeRequest? || m.PidB? then CompareNid(a, b) <= 0 else CompareNid(b, a) <= 0
  }

  predicate MsgShape(net: Net, a: Nid, b: Nid, m: Msg) {
    && a in net.rms && Knows(net.rms[a].chain, b) && RightWay(a, b, m)
    && (m.PidA? || m.PidB? ==> |m.pids| == |PidsFor(net.rms[a], b)|)
  }

  ghost predicate Shape(net: Net) {
    && (forall h :: ManagerOk(net, h))
    && (forall a, b :: LinkShape(net, a, b))
    && (forall a, b, m :: m in Chan(net, a, b) ==> MsgShape(net, a, b, m))
  }

  lemma InitialManager(net: Net, table: seq<Row>, h: Nid)
    requires Initial(net, table) && h in net.rms
    ensures ManagerOk(net, h)
    ensures forall i :: 0 <= i < |net.rms[h].chain| ==> net.rms[h].chain[i].time == INITIAL_TIME
  {
    BuildGroups(Align(table, h), h);
  }

  lemma InitialLink(net: Net, table: seq<Row>, a: Nid, b: Nid)
    requires Initial(net, table) && a in net.rms && b in net.rms
    ensures Knows(net.rms[a].chain, b) <==> Knows(net.rms[b].chain, a)
    ensures Knows(net.rms[a].chain, b) ==> PidsFor(net.rms[a], b) == PidsFor(net.rms[b], a)
    ensures Knows(net.rms[a].chain, b) ==> TimeFor(net.rms[a], b) == TimeFor(net.rms[b], a)
  {
    InitialManager(net, table, a);
    InitialManager(net, table, b);
    if a != b {
      BothEndsAgree(table, a, b);
      ChainPids(net.rms[a], b);
      ChainPids(net.rms[b], a);
    }
  }

  lemma InitialShape(net: Net, table: seq<Row>)
    requires Initial(net, table)
    ensures Shape(net)
  {
    forall h
      ensures ManagerOk(net, h)
    {
      if h in net.rms {
        InitialManager(net, table, h);
      }
    }
    forall a, b
      ensures LinkShape(net, a, b)
    {
      if a in net.rms && b in net.rms {
        InitialLink(net, table, a, b);
      }
    }
  }

  lemma ChainPids(rm: RmState, eid: Nid)
    requires Groups(rm.chain, rm.table, rm.host)
    ensures Knows(rm.chain, eid) <==> PidsOf(rm.table, rm.host, eid) != []
    ensures Knows(rm.chain, eid) ==> PidsFor(rm, eid) == PidsOf(rm.table, rm.host, eid)
  {
  }

  // ---------- what one step changes ----------

  lemma StepManager(net: Net, ev: Event, h: Nid, other: Nid)
    requires Shape(net) && Enabled(net, ev) && h in net.rms
    ensures Step(net, ev).rms.Keys == net.rms.Keys && ManagerOk(Step(net, ev), h)
    ensures var rm, rm' := net.rms[h], Step(net, ev).rms[h];
      && WellFormed(rm) && WellFormed(rm')
      && Find(rm'.chain, other) == Find(rm.chain, other) && |rm'.chain| == |rm.chain|
      && (Knows(rm.chain, other) ==> |PidsFor(rm', other)| == |PidsFor(rm, other)|)
      && (!(ev.Deliver? && ev.from == other && ev.to == h) ==> SameFor(rm, rm', other))
  {
    assert ManagerOk(net, h);
    if ev.Deliver? && ev.to == h {
      ReactionFrame(net.rms[h], ev.from, Chan(net, ev.from, h)[0], ev.number, other);
    }
  }

  ghost function Replies(net: Net, ev: Event): seq<Msg>
    requires Enabled(net, ev) && ev.Deliver?
  {
    React(net.rms[ev.to], ev.from, Chan(net, ev.from, ev.to)[0], ev.number).replies
  }

  lemma StepChannel(net: Net, ev: Event, a: Nid, b: Nid)
    requires Enabled(net, ev)
    ensures Chan(Step(net, ev), a, b) ==
            if ev == Request(a, b) then Chan(net, a, b) + [ChangeRequest]
            else if ev.Request? then Chan(net, a, b)
            else (if ev.from == a && ev.to == b then Chan(net, a, b)[1..] else Chan(net, a, b))
                 + (if ev.from == b && ev.to == a then Replies(net, ev) else [])
  {
    if ev.Deliver? {
      var q := Chan(net, a, b);
      assert q + [] == q && q != [] ==> q[1..] + [] == q[1..];
    }
  }

  /** What one manager answers has the right shape for the way back. */
  lemma RepliesShape(net: Net, ev: Event, m: Msg)
    requires Shape(net) && Enabled(net, ev) && ev.Deliver? && m in Replies(net, ev)
    ensures MsgShape(net, ev.to, ev.from, m)
  {
    var rm := net.rms[ev.to];
    assert MsgShape(net, ev.from, ev.to, Chan(net, ev.from, ev.to)[0]);
    if Knows(rm.chain, ev.from) {
      CountFits(rm, Find(rm.chain, ev.from));
      Fits(rm, Find(rm.chain, ev.from));
    }
  }

  lemma SponsorIsSmaller(rm: RmState, eid: Nid)
    requires Sponsors(rm, eid)
    ensures CompareNid(rm.host, eid) <= 0
  {
  }

  lemma StepShape(net: Net, ev: Event)
    requires Shape(net) && Enabled(net, ev)
    ensures Shape(Step(net, ev))
  {
    var net' := Step(net, ev);
    forall h
      ensures ManagerOk(net', h)
    {
      if h in net.rms {
        StepManager(net, ev, h, h);
      }
    }
    forall a, b
      ensures LinkShape(net', a, b)
    {
      if a in net.rms && b in net.rms {
        assert LinkShape(net, a, b);
        StepManager(net, ev, a, b);
        StepManager(net, ev, b, a);
      }
    }
    forall a, b, m | m in Chan(net', a, b)
      ensures MsgShape(net', a, b, m)
    {
      StepMsgShape(net, ev, a, b, m);
    }
  }

  lemma StepMsgShape(net: Net, ev: Event, a: Nid, b: Nid, m: Msg)
    requires Shape(net) && Enabled(net, ev) && m in Chan(Step(net, ev), a, b)
    ensures MsgShape(Step(net, ev), a, b, m)
  {
    StepChannel(net, ev, a, b);
    if m in Chan(net, a, b) {
      assert MsgShape(net, a, b, m);
    } else if ev.Request? {
      assert ManagerOk(net, a);
      SponsorIsSmaller(net.rms[a], b);
    } else {
      RepliesShape(net, ev, m);
    }
    StepManager(net, ev, a, b);
  }

  /** No message is ever stuck: whatever is first in a channel of a reachable state can be handled,
      with every random number its handler may draw. */
  lemma NeverStuck(net: Net, a: Nid, b: Nid, number: nat)
    requires Shape(net) && b in net.rms && Chan(net, a, b) != [] && LegalNumber(Chan(net, a, b)[0], number)
    ensures Enabled(net, Deliver(a, b, number))
  {
    assert MsgShape(net, a, b, Chan(net, a, b)[0]);
    assert LinkShape(net, a, b) && ManagerOk(net, b);
  }

  /** Of two neighbouring managers exactly one passes the sponsor test for the other. */
  lemma OneSponsor(net: Net, a: Nid, b: Nid)
    requires Shape(net) && a in net.rms && b in net.rms && a != b && Knows(net.rms[a].chain, b)
    ensures Sponsors(net.rms[a], b) <==> !Sponsors(net.rms[b], a)
    ensures Sponsors(net.rms[a], b) <==> CompareNid(a, b) <= 0
  {
    assert ManagerOk(net, a) && ManagerOk(net, b) && LinkShape(net, a, b);
    CompareTotalOrder(a, b, a);
    SomeRow(net.rms[a].table, a, b);
    SomeRow(net.rms[b].table, b, a);
    ChainPids(net.rms[a], b);
    ChainPids(net.rms[b], a);
  }

  lemma {:induction false} SomeRow(table: seq<Row>, host: Nid, eid: Nid)
    ensures PidsOf(table, host, eid) != [] ==> exists i :: 0 <= i < |table| && Leads(table[i], host, eid)
  {
    if table != [] {
      var n := |table| - 1;
      SomeRow(table[..n], host, eid);
      if PidsOf(table[..n], host, eid) != [] {
        var i :| 0 <= i < n && Leads(table[..n][i], host, eid);
        assert Leads(table[i], host, eid);
      }
    }
  }
}
