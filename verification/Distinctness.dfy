/** What negotiation does to the lists of PIDs: the PIDs of one neighbour stay pairwise distinct in every
    reachable state, and negotiated lists are of small numbers. */
module Distinctness {
  import opened Words
  import opened LinkTable
  import opened PidChain
  import opened Negotiation
  import opened Network
  import opened Agreement
  import Resolver

  /** The largest PID to which the largest random number can be added without wrap-around. */
  const PID_CEILING: uint32 := 0x1_0000_0000 - 102

  predicate Distinct(pids: seq<uint32>) {
    forall i, j :: 0 <= i < j < |pids| ==> pids[i] != pids[j]
  }

  predicate DistinctMod100(pids: seq<uint32>) {
    forall i, j :: 0 <= i < j < |pids| ==> pids[i] % 100 != pids[j] % 100
  }

  predicate Low(pids: seq<uint32>) {
    forall i :: 0 <= i < |pids| ==> pids[i] <= PID_CEILING
  }

  predicate Good(pids: seq<uint32>) {
    DistinctMod100(pids) && Low(pids)
  }

  predicate Small(pids: seq<uint32>) {
    forall i :: 0 <= i < |pids| ==> pids[i] < 100
  }

  // ---------- one proposal, one resolution ----------

  lemma AddMod100(p: nat, q: nat, d: nat)
    ensures (p + d) % 100 == (q + d) % 100 <==> p % 100 == q % 100
  {
  }

  lemma ProposedPid(pids: seq<uint32>, number: nat, i: nat)
    requires Low(pids) && number <= 101 && i < |pids|
    ensures Propose(pids, number)[i] == (pids[i] + number) % 100
  {
  }

  /** The proposal has no repetition exactly when the current PIDs differ modulo 100. */
  lemma ProposeDistinctIff(pids: seq<uint32>, number: nat)
    requires Low(pids) && number <= 101
    ensures Distinct(Propose(pids, number)) <==> DistinctMod100(pids)
    ensures Small(Propose(pids, number))
  {
    var r := Propose(pids, number);
    forall i, j | 0 <= i < j < |pids|
      ensures r[i] == r[j] <==> pids[i] % 100 == pids[j] % 100
    {
      ProposedPid(pids, number, i);
      ProposedPid(pids, number, j);
      AddMod100(pids[i], pids[j], number);
    }
    if Distinct(r) {
      forall i, j | 0 <= i < j < |pids|
        ensures pids[i] % 100 != pids[j] % 100
      {
        assert r[i] != r[j];
      }
    }
  }

  lemma SmallDistinctIsGood(pids: seq<uint32>)
    requires Small(pids) && Distinct(pids)
    ensures Good(pids)
  {
    assert forall i :: 0 <= i < |pids| ==> pids[i] % 100 == pids[i];
  }

  lemma {:induction false} ShiftGood(pids: seq<uint32>, d: nat)
    requires Small(pids) && DistinctMod100(pids) && d <= 1_000_000
    ensures Good(Resolver.Shift(pids, d))
  {
    var r := Resolver.Shift(pids, d);
    forall i | 0 <= i < |pids|
      ensures r[i] == pids[i] + d
    {
    }
    forall i, j | 0 <= i < j < |pids|
      ensures r[i] % 100 != r[j] % 100
    {
      AddMod100(pids[i], pids[j], d);
    }
  }

  /** The uniform shift of the resolver keeps a list of proposals below 100 distinct modulo 100. */
  lemma {:induction false} ResolveGood(pids: seq<uint32>, taken: seq<uint32>, step: nat)
    requires Small(pids) && DistinctMod100(pids)
    requires |pids| <= MAX_PID_NUMBER && |taken| < 256 && 1 <= step <= 101
    requires Resolver.Bounded(pids, taken, step)
    ensures Good(Resolver.Resolve(pids, taken, step))
  {
    var q := Resolver.FirstFree(pids, taken, step, 0);
    ShiftBound(|pids|, |taken|, q, step);
    ShiftGood(pids, q * step);
  }

  lemma ShiftBound(n: nat, m: nat, q: nat, step: nat)
    requires n <= MAX_PID_NUMBER && m < 256 && q <= n * m && step <= 101
    ensures q * step <= 1_000_000
  {
    MulMono(n, 20, m, 255);
    MulMono(q, 5100, step, 101);
  }

  /** A resolved list stays far below 2^24. */
  lemma {:induction false} ResolveLow(pids: seq<uint32>, taken: seq<uint32>, step: nat, i: nat)
    requires Small(pids) && |pids| <= MAX_PID_NUMBER && |taken| < 256 && 1 <= step <= 101
    requires Resolver.Bounded(pids, taken, step) && i < |pids|
    ensures Resolver.Resolve(pids, taken, step)[i] < 0x100_0000
  {
    var q := Resolver.FirstFree(pids, taken, step, 0);
    ShiftBound(|pids|, |taken|, q, step);
    ShiftLow(pids, q * step, i);
  }

  lemma ShiftLow(pids: seq<uint32>, d: nat, i: nat)
    requires Small(pids) && d <= 1_000_000 && i < |pids|
    ensures Resolver.Shift(pids, d)[i] < 0x100_0000
  {
  }

  // ---------- one reaction ----------

  /** Two laws about the lists under negotiation: they differ modulo 100, or they are short, being
      those of the network `first` or negotiated since. */
  datatype Law = Differ | Short(first: Net)

  /** Every PID fits three bytes. */
  predicate ThreeBytes(pids: seq<uint32>) {
    forall i :: 0 <= i < |pids| ==> pids[i] < 0x100_0000
  }

  predicate Fine(law: Law, pids: seq<uint32>) {
    if law.Differ? then Good(pids) else ThreeBytes(pids)
  }

  predicate FirstList(net: Net, h: Nid, eid: Nid, pids: seq<uint32>) {
    h in net.rms && Knows(net.rms[h].chain, eid) && pids == PidsFor(net.rms[h], eid)
  }

  /** What a manager may hold: a negotiated list, or under the second law the one it started with. */
  predicate Kept(law: Law, h: Nid, eid: Nid, pids: seq<uint32>) {
    Fine(law, pids) || (law.Short? && FirstList(law.first, h, eid, pids))
  }

  predicate GoodMsg(law: Law, m: Msg) {
    && (m.PidA? ==> Small(m.pids) && Fine(law, m.pids))
    && (m.PidB? ==> Fine(law, m.pids))
  }

  lemma {:induction false} GoodProposal(law: Law, pids: seq<uint32>, number: nat, time: uint32)
    requires (law.Differ? ==> Good(pids)) && number <= 101
    ensures GoodMsg(law, PidA(time, Propose(pids, number)))
  {
    if law.Differ? {
      ProposeDistinctIff(pids, number);
      SmallDistinctIsGood(Propose(pids, number));
    }
  }

  lemma ResolveFine(law: Law, pids: seq<uint32>, taken: seq<uint32>, step: nat)
    requires Small(pids) && Fine(law, pids)
    requires |pids| <= MAX_PID_NUMBER && |taken| < 256 && 1 <= step <= 101
    requires Resolver.Bounded(pids, taken, step)
    ensures Fine(law, Resolver.Resolve(pids, taken, step))
  {
    hide Resolver.Resolve;
    if law.Differ? {
      ResolveGood(pids, taken, step);
    } else {
      forall i | 0 <= i < |pids|
        ensures Resolver.Resolve(pids, taken, step)[i] < 0x100_0000
      {
        ResolveLow(pids, taken, step, i);
      }
    }
  }

  lemma ReactionGood(law: Law, rm: RmState, from: Nid, m: Msg, number: nat)
    requires WellFormed(rm) && Knows(rm.chain, from) && LegalNumber(m, number)
    requires m.PidA? || m.PidB? ==> |m.pids| == |PidsFor(rm, from)|
    requires Kept(law, rm.host, from, PidsFor(rm, from)) && GoodMsg(law, m)
    requires m.Ack? ==> Fine(law, Pending(rm, from, false))
    ensures var re := React(rm, from, m, number);
      && WellFormed(re.rm) && Knows(re.rm.chain, from) && Kept(law, rm.host, from, PidsFor(re.rm, from))
      && (forall i :: 0 <= i < |re.replies| ==> GoodMsg(law, re.replies[i]))
      && (m.PidA? ==> Fine(law, Pending(re.rm, from, false)))
      && (!m.PidA? ==> Pending(re.rm, from, false) == Pending(rm, from, false))
  {
    var k := Find(rm.chain, from);
    CountFits(rm, k);
    Fits(rm, k);
    ReactionFrame(rm, from, m, number, from);
    if m.PidA? || m.PidB? {
      assert m.pids[..|m.pids|] == m.pids;
    }
    match m
    case ChangeRequest => GoodProposal(law, PidsFor(rm, from), number, ProposeTime(TimeFor(rm, from), number));
    case PidA(time, pids) => ResolveFine(law, pids, TakenBy(rm.table), number);
    case PidB(time, pids) => GoodProposal(law, pids, number, ProposeTime(time, number));
    case Ack =>
  }

  // ---------- every run ----------

  ghost predicate GoodEntry(law: Law, net: Net, h: Nid, eid: Nid) {
    h in net.rms && Knows(net.rms[h].chain, eid) ==> Kept(law, h, eid, PidsFor(net.rms[h], eid))
  }

  /** A proposal that a pid_b or an ack under way may still install. */
  ghost predicate GoodPending(law: Law, net: Net, s: Nid, r: Nid)
    requires ManagerOk(net, s)
  {
    s in net.rms && Knows(net.rms[s].chain, r) && (HasB(Chan(net, s, r)) || HasAck(Chan(net, r, s))) ==>
      Fine(law, Pending(net.rms[s], r, false))
  }

  ghost predicate AllGood(law: Law, net: Net)
    requires Shape(net)
  {
    && (forall h, eid :: GoodEntry(law, net, h, eid))
    && (forall a, b, m :: m in Chan(net, a, b) ==> GoodMsg(law, m))
    && (forall s, r :: ManagerOk(net, s) ==> GoodPending(law, net, s, r))
  }

  lemma DeliveredGood(law: Law, net: Net, a: Nid, b: Nid, number: nat)
    requires Shape(net) && Enabled(net, Deliver(a, b, number)) && AllGood(law, net)
    requires Knows(net.rms[b].chain, a)
    ensures var m, rm := Chan(net, a, b)[0], net.rms[b]; var re := React(rm, a, m, number);
      && WellFormed(re.rm) && Knows(re.rm.chain, a) && Kept(law, b, a, PidsFor(re.rm, a))
      && (forall i :: 0 <= i < |re.replies| ==> GoodMsg(law, re.replies[i]))
      && (m.PidA? ==> Fine(law, Pending(re.rm, a, false)))
      && (!m.PidA? ==> Pending(re.rm, a, false) == Pending(rm, a, false))
  {
    var m := Chan(net, a, b)[0];
    assert MsgShape(net, a, b, m) && LinkShape(net, a, b) && ManagerOk(net, b);
    assert GoodEntry(law, net, b, a) && GoodPending(law, net, b, a) && m in Chan(net, a, b);
    if m.Ack? {
      assert HasAck(Chan(net, a, b));
    }
    ReactionGood(law, net.rms[b], a, m, number);
  }

  lemma StepGoodEntry(law: Law, net: Net, ev: Event, h: Nid, eid: Nid)
    requires Shape(net) && Enabled(net, ev) && AllGood(law, net)
    ensures GoodEntry(law, Step(net, ev), h, eid)
  {
    if h in net.rms {
      StepManager(net, ev, h, eid);
      assert GoodEntry(law, net, h, eid);
      if ev.Deliver? && ev.from == eid && ev.to == h && Knows(net.rms[h].chain, eid) {
        DeliveredGood(law, net, ev.from, ev.to, ev.number);
      }
    }
  }

  lemma {:induction false} StepGoodMsg(law: Law, net: Net, ev: Event, a: Nid, b: Nid, m: Msg)
    requires Shape(net) && Enabled(net, ev) && AllGood(law, net) && m in Chan(Step(net, ev), a, b)
    ensures GoodMsg(law, m)
  {
    StepChannel(net, ev, a, b);
    if m !in Chan(net, a, b) && ev.Deliver? {
      assert m in Replies(net, ev);
      DeliveredGood(law, net, ev.from, ev.to, ev.number);
    }
  }

  /** A pid_b or ack under way after a step was under way before it, answers a pid_a, or answers a pid_b. */
  lemma NewReplies(net: Net, a: Nid, b: Nid, number: nat)
    requires Shape(net) && Enabled(net, Deliver(a, b, number))
    ensures var m, replies := Chan(net, a, b)[0], Replies(net, Deliver(a, b, number));
      && (HasB(replies) ==> m.PidA?) && (HasAck(replies) ==> m.PidB?)
  {
    var rm := net.rms[b];
    if Knows(rm.chain, a) {
      CountFits(rm, Find(rm.chain, a));
      Fits(rm, Find(rm.chain, a));
    }
  }

  lemma HasConcat(q: seq<Msg>, t: seq<Msg>)
    ensures HasB(q + t) <==> HasB(q) || HasB(t)
    ensures HasAck(q + t) <==> HasAck(q) || HasAck(t)
  {
    assert forall i :: 0 <= i < |q| ==> q[i] == (q + t)[i];
    assert forall i :: 0 <= i < |t| ==> t[i] == (q + t)[|q| + i];
  }

  /** What may be under way towards `b` after the step, told by what was before. */
  lemma StepHas(net: Net, ev: Event, a: Nid, b: Nid)
    requires Shape(net) && Enabled(net, ev)
    ensures HasB(Chan(Step(net, ev), a, b)) ==>
      HasB(Chan(net, a, b)) || (ev.Deliver? && ev.from == b && ev.to == a && Chan(net, b, a)[0].PidA?)
    ensures HasAck(Chan(Step(net, ev), a, b)) ==>
      HasAck(Chan(net, a, b)) || (ev.Deliver? && ev.from == b && ev.to == a && Chan(net, b, a)[0].PidB?)
  {
    StepChannel(net, ev, a, b);
    var q := Chan(net, a, b);
    if q != [] {
      HasTail(q);
    }
    HasSnoc(q, ChangeRequest);
    if ev.Deliver? {
      NewReplies(net, ev.from, ev.to, ev.number);
      var kept := if ev.from == a && ev.to == b then q[1..] else q;
      HasConcat(kept, if ev.from == b && ev.to == a then Replies(net, ev) else []);
    }
  }

  lemma StepGoodPending(law: Law, net: Net, ev: Event, s: Nid, r: Nid)
    requires Shape(net) && Enabled(net, ev) && AllGood(law, net)
    ensures ManagerOk(Step(net, ev), s) && GoodPending(law, Step(net, ev), s, r)
  {
    if s in net.rms {
      StepManager(net, ev, s, r);
      assert ManagerOk(net, s) && GoodPending(law, net, s, r);
      StepHas(net, ev, s, r);
      StepHas(net, ev, r, s);
      if ev.Deliver? && ev.from == s && ev.to == r && Chan(net, s, r)[0].PidB? {
        assert HasB(Chan(net, s, r));
      }
      if ev.Deliver? && ev.from == r && ev.to == s && Knows(net.rms[s].chain, r) {
        DeliveredGood(law, net, r, s, ev.number);
      }
    }
  }

  lemma StepAllGood(law: Law, net: Net, ev: Event)
    requires Shape(net) && Enabled(net, ev) && AllGood(law, net)
    ensures Shape(Step(net, ev)) && AllGood(law, Step(net, ev))
  {
    StepShape(net, ev);
    forall h, eid
      ensures GoodEntry(law, Step(net, ev), h, eid)
    {
      StepGoodEntry(law, net, ev, h, eid);
    }
    forall a, b, m | m in Chan(Step(net, ev), a, b)
      ensures GoodMsg(law, m)
    {
      StepGoodMsg(law, net, ev, a, b, m);
    }
    forall s, r
      ensures ManagerOk(Step(net, ev), s) && GoodPending(law, Step(net, ev), s, r)
    {
      StepGoodPending(law, net, ev, s, r);
    }
  }

  lemma {:induction false} RunAllGood(law: Law, net: Net, events: seq<Event>)
    requires Shape(net) && AllGood(law, net) && ValidRun(net, events)
    ensures Shape(Run(net, events)) && AllGood(law, Run(net, events))
    decreases |events|
  {
    if events != [] {
      StepAllGood(law, net, events[0]);
      RunAllGood(law, Step(net, events[0]), events[1..]);
    }
  }

  lemma InitialGood(law: Law, net: Net, table: seq<Row>)
    requires Initial(net, table)
    requires law.Differ? ==> forall a, b :: a in net.rms ==> Good(PidsOf(Align(table, a), a, b))
    requires law.Short? ==> law.first == net
    ensures Shape(net) && AllGood(law, net)
  {
    InitialShape(net, table);
    if law.Differ? {
      forall a, b
        ensures GoodEntry(law, net, a, b)
      {
        if a in net.rms {
          InitialManager(net, table, a);
          ChainPids(net.rms[a], b);
        }
      }
    }
  }

  /** If the table gives every two neighbours PIDs that differ modulo 100 and leave room for the
      random number, then in every reachable state the PIDs of a neighbour are pairwise distinct. */
  lemma {:induction false} PidsStayDistinct(net: Net, table: seq<Row>, events: seq<Event>, h: Nid, eid: Nid)
    requires Initial(net, table) && ValidRun(net, events) && h in net.rms
    requires forall a, b :: a in net.rms ==> Good(PidsOf(Align(table, a), a, b))
    requires h in Run(net, events).rms && Knows(Run(net, events).rms[h].chain, eid)
    ensures Distinct(PidsFor(Run(net, events).rms[h], eid))
  {
    hide Run, ValidRun, Initial, Align, PidsOf;
    InitialGood(Differ, net, table);
    RunAllGood(Differ, net, events);
    var pids := PidsFor(Run(net, events).rms[h], eid);
    assert GoodEntry(Differ, Run(net, events), h, eid);
    assert forall i, j :: 0 <= i < j < |pids| ==> pids[i] % 100 != pids[j] % 100;
  }

  /** In every reachable state of every network a neighbour's list is the one the manager started with,
      or all its PIDs are below 2^24. */
  lemma {:induction false} ListsGetShort(net: Net, table: seq<Row>, events: seq<Event>, h: Nid, eid: Nid)
    requires Initial(net, table) && ValidRun(net, events)
    requires h in Run(net, events).rms && Knows(Run(net, events).rms[h].chain, eid)
    ensures var pids := PidsFor(Run(net, events).rms[h], eid); ThreeBytes(pids) || FirstList(net, h, eid, pids)
  {
    hide Run, ValidRun, Initial, ThreeBytes;
    InitialGood(Short(net), net, table);
    RunAllGood(Short(net), net, events);
    assert GoodEntry(Short(net), Run(net, events), h, eid);
  }
}
