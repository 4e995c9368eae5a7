/** Negotiations with several neighbours at one manager: when the lists of different neighbours
    stay disjoint, and what goes wrong when the negotiations cross. The messages that arrive are
    arbitrary; nothing is assumed about the senders until the runs of a network are projected. */
module Interleaving {
  import opened Words
  import opened LinkTable
  import opened PidChain
  import opened Negotiation
  import opened Network
  import opened Agreement
  import opened Reactions
  import opened Resolver

  datatype Input = Input(from: Nid, msg: Msg, number: nat)

  ghost predicate Accepts(rm: RmState, inp: Input) {
    WellFormed(rm) && Receivable(rm, inp.from, inp.msg) && LegalNumber(inp.msg, inp.number)
  }

  ghost function After(rm: RmState, inp: Input): (rm': RmState)
    requires Accepts(rm, inp)
    ensures WellFormed(rm')
  {
    ReactionFrame(rm, inp.from, inp.msg, inp.number, inp.from);
    React(rm, inp.from, inp.msg, inp.number).rm
  }

  /** Every input is accepted in the state that those before it lead to. */
  ghost predicate AcceptedRun(rm: RmState, inputs: seq<Input>)
    decreases |inputs|
  {
    inputs == [] || (Accepts(rm, inputs[0]) && AcceptedRun(After(rm, inputs[0]), inputs[1..]))
  }

  ghost function Reached(rm: RmState, inputs: seq<Input>): RmState
    requires AcceptedRun(rm, inputs)
    decreases |inputs|
  {
    if inputs == [] then rm else Reached(After(rm, inputs[0]), inputs[1..])
  }

  /** No PID belongs to two neighbours. */
  predicate Disjoint(chain: seq<Neighbour>) {
    forall i, j :: 0 <= i < |chain| && 0 <= j < |chain| && i != j ==> !Conflict(chain[i].pids, chain[j].pids)
  }

  /** The pending proposal for `eid` meets no PID of another neighbour. */
  ghost predicate PendingClear(rm: RmState, eid: Nid)
    requires WellFormed(rm)
  {
    Knows(rm.chain, eid) ==>
      forall k :: 0 <= k < |rm.chain| && k != Find(rm.chain, eid) ==>
        !Conflict(Pending(rm, eid, false), rm.chain[k].pids)
  }

  // ---------- one step ----------

  lemma ConflictSymmetric(a: seq<uint32>, b: seq<uint32>)
    ensures Conflict(a, b) <==> Conflict(b, a)
  {
  }

  /** Every PID of the chain occurs in the table. */
  lemma {:induction false} PidsInTable(table: seq<Row>, host: Nid, eid: Nid, c: nat)
    requires c < |PidsOf(table, host, eid)|
    ensures exists i :: 0 <= i < |table| && table[i].pid == PidsOf(table, host, eid)[c]
  {
    var n := |table| - 1;
    if c < |PidsOf(table[..n], host, eid)| {
      PidsInTable(table[..n], host, eid, c);
      var i :| 0 <= i < n && table[..n][i].pid == PidsOf(table, host, eid)[c];
      assert table[i].pid == PidsOf(table, host, eid)[c];
    }
  }

  lemma ClearOfTable(rm: RmState, pids: seq<uint32>, k: nat)
    requires WellFormed(rm) && !Conflict(pids, TakenBy(rm.table)) && k < |rm.chain|
    ensures !Conflict(pids, rm.chain[k].pids)
  {
    forall j, c | 0 <= j < |pids| && 0 <= c < |rm.chain[k].pids|
      ensures pids[j] != rm.chain[k].pids[c]
    {
      PidsInTable(rm.table, rm.host, rm.chain[k].eid, c);
      var i :| 0 <= i < |rm.table| && rm.table[i].pid == rm.chain[k].pids[c];
      assert TakenBy(rm.table)[i] == rm.table[i].pid;
    }
  }

  lemma InstallDisjointIff(chain: seq<Neighbour>, k: nat, time: uint32, pids: seq<uint32>)
    requires Disjoint(chain) && k < |chain|
    ensures Disjoint(chain[k := chain[k].(time := time, pids := pids)]) <==>
            (forall i :: 0 <= i < |chain| && i != k ==> !Conflict(pids, chain[i].pids))
  {
    var chain' := chain[k := chain[k].(time := time, pids := pids)];
    if Disjoint(chain') {
      forall i | 0 <= i < |chain| && i != k
        ensures !Conflict(pids, chain[i].pids)
      {
        assert !Conflict(chain'[k].pids, chain'[i].pids);
      }
    } else {
      var i, j :| 0 <= i < |chain| && 0 <= j < |chain| && i != j && Conflict(chain'[i].pids, chain'[j].pids);
      ConflictSymmetric(chain'[i].pids, chain'[j].pids);
      assert !Conflict(chain[i].pids, chain[j].pids);
    }
  }

  /** An ack keeps the lists disjoint exactly when the pending proposal is still clear of the others. */
  lemma AckKeepsDisjointIff(rm: RmState, eid: Nid, number: nat)
    requires Accepts(rm, Input(eid, Ack, number)) && Knows(rm.chain, eid) && Disjoint(rm.chain)
    ensures Disjoint(After(rm, Input(eid, Ack, number)).chain) <==> PendingClear(rm, eid)
  {
    var k := Find(rm.chain, eid);
    CountFits(rm, k);
    Fits(rm, k);
    InstallDisjointIff(rm.chain, k, rm.pendingTime, PendingFor(rm, eid));
  }

  // ---------- runs in which no other install crosses a negotiation ----------

  /** The neighbours from which a pid_a came after the last install by another neighbour. */
  ghost function NextFresh(rm: RmState, recent: set<Nid>, inp: Input): set<Nid>
    requires Accepts(rm, inp)
  {
    if Settles(rm, inp.from, inp.msg) then recent * {inp.from}
    else if inp.msg.PidA? then recent + {inp.from}
    else recent
  }

  /** No ack arrives after another neighbour's install has followed its pid_a. */
  ghost predicate UncrossedRun(rm: RmState, recent: set<Nid>, inputs: seq<Input>)
    decreases |inputs|
  {
    inputs == [] ||
    (&& Accepts(rm, inputs[0])
     && (inputs[0].msg.Ack? ==> inputs[0].from in recent)
     && UncrossedRun(After(rm, inputs[0]), NextFresh(rm, recent, inputs[0]), inputs[1..]))
  }

  ghost predicate Uncrossed(rm: RmState, recent: set<Nid>) {
    WellFormed(rm) && Disjoint(rm.chain) && forall eid :: eid in recent ==> PendingClear(rm, eid)
  }

  /** What such a message installs: the pending proposal, or a list of which no PID is in use. */
  lemma SettlesByInstall(rm: RmState, inp: Input) returns (time: uint32, got: seq<uint32>)
    requires Accepts(rm, inp) && Settles(rm, inp.from, inp.msg)
    ensures |got| == |PidsFor(rm, inp.from)|
    ensures Count(rm.table, rm.host, inp.from, RowsSeen(rm.table)) <= |got|
    ensures After(rm, inp) == Install(rm, Find(rm.chain, inp.from), time, got)
    ensures if inp.msg.Ack? then got == Pending(rm, inp.from, false) else !InUse(got, rm.chain)
  {
    var k := Find(rm.chain, inp.from);
    CountFits(rm, k);
    Fits(rm, k);
    got := if inp.msg.Ack? then PendingFor(rm, inp.from) else inp.msg.pids[..|rm.chain[k].pids|];
    time := if inp.msg.Ack? then rm.pendingTime else inp.msg.time;
    InUseIff(rm, got);
  }

  lemma InstallUncrossed(rm: RmState, recent: set<Nid>, inp: Input)
    requires Uncrossed(rm, recent) && Accepts(rm, inp) && Settles(rm, inp.from, inp.msg)
    requires inp.msg.Ack? ==> inp.from in recent
    ensures Uncrossed(After(rm, inp), recent * {inp.from})
  {
    hide After, WriteBack;
    var k := Find(rm.chain, inp.from);
    CountFits(rm, k);
    var time, got := SettlesByInstall(rm, inp);
    if inp.msg.Ack? {
      assert PendingClear(rm, inp.from);
    }
    InstallDisjointIff(rm.chain, k, time, got);
    InstallKeeps(rm, k, time, got);
    if inp.from in recent {
      assert PendingClear(rm, inp.from);
      assert PendingClear(After(rm, inp), inp.from);
    }
  }

  lemma {:induction false} ProposalUncrossed(rm: RmState, recent: set<Nid>, inp: Input)
    requires Uncrossed(rm, recent) && Accepts(rm, inp) && inp.msg.PidA? && Knows(rm.chain, inp.from)
    ensures Uncrossed(After(rm, inp), recent + {inp.from})
  {
    var rm' := After(rm, inp);
    var k := Find(rm.chain, inp.from);
    Fits(rm, k);
    assert rm'.chain == rm.chain && rm'.table == rm.table;
    forall i | 0 <= i < |rm.chain|
      ensures !Conflict(Pending(rm', inp.from, false), rm.chain[i].pids)
    {
      ClearOfTable(rm, Pending(rm', inp.from, false), i);
    }
    forall eid | eid in recent + {inp.from}
      ensures PendingClear(rm', eid)
    {
      if eid != inp.from {
        assert PendingClear(rm, eid);
        ReactionFrame(rm, inp.from, inp.msg, inp.number, eid);
      }
    }
  }

  lemma {:induction false} StepUncrossed(rm: RmState, recent: set<Nid>, inp: Input)
    requires Uncrossed(rm, recent) && Accepts(rm, inp) && (inp.msg.Ack? ==> inp.from in recent)
    ensures Uncrossed(After(rm, inp), NextFresh(rm, recent, inp))
  {
    if Settles(rm, inp.from, inp.msg) {
      InstallUncrossed(rm, recent, inp);
    } else if Knows(rm.chain, inp.from) {
      if inp.msg.PidA? {
        ProposalUncrossed(rm, recent, inp);
      } else if inp.msg.PidB? {
        PidBAcceptedIff(rm, inp.from, inp.msg.time, inp.msg.pids, inp.number);
      } else {
        ChangeRequestAnswered(rm, inp.from, inp.number);
      }
    } else {
      assert PendingClear(rm, inp.from);
    }
  }

  /** In every run in which no other install falls between a pid_a and its ack, the PIDs of
      different neighbours stay disjoint. */
  lemma {:induction false} NeighboursStayDisjoint(rm: RmState, recent: set<Nid>, inputs: seq<Input>)
    requires Uncrossed(rm, recent) && UncrossedRun(rm, recent, inputs)
    ensures AcceptedRun(rm, inputs) && Disjoint(Reached(rm, inputs).chain)
    decreases |inputs|
  {
    if inputs != [] {
      StepUncrossed(rm, recent, inputs[0]);
      NeighboursStayDisjoint(After(rm, inputs[0]), NextFresh(rm, recent, inputs[0]), inputs[1..]);
    }
  }

  // ---------- the exact condition over whole runs ----------

  /** Every ack finds its proposal still clear of the other neighbours. */
  ghost predicate AcksClear(rm: RmState, inputs: seq<Input>)
    requires WellFormed(rm) && AcceptedRun(rm, inputs)
    decreases |inputs|
  {
    inputs == [] ||
    ((inputs[0].msg.Ack? ==> PendingClear(rm, inputs[0].from)) && AcksClear(After(rm, inputs[0]), inputs[1..]))
  }

  ghost predicate DisjointThroughout(rm: RmState, inputs: seq<Input>)
    requires AcceptedRun(rm, inputs)
    decreases |inputs|
  {
    Disjoint(rm.chain) && (inputs == [] || DisjointThroughout(After(rm, inputs[0]), inputs[1..]))
  }

  /** One accepted message keeps disjoint lists disjoint unless it is an ack whose proposal is not clear. */
  lemma StepDisjointIff(rm: RmState, inp: Input)
    requires Accepts(rm, inp) && Disjoint(rm.chain)
    ensures Disjoint(After(rm, inp).chain) <==> (inp.msg.Ack? ==> PendingClear(rm, inp.from))
  {
    if !inp.msg.Ack? {
      StepUncrossed(rm, {}, inp);
    } else if Knows(rm.chain, inp.from) {
      AckKeepsDisjointIff(rm, inp.from, inp.number);
    }
  }

  /** The lists of different neighbours are disjoint in every state of a run if and only if every ack
      finds its proposal still clear of the other neighbours. */
  lemma {:induction false} DisjointThroughoutIff(rm: RmState, inputs: seq<Input>)
    requires WellFormed(rm) && AcceptedRun(rm, inputs) && Disjoint(rm.chain)
    ensures DisjointThroughout(rm, inputs) <==> AcksClear(rm, inputs)
    decreases |inputs|
  {
    hide Disjoint, PendingClear, After;
    if inputs != [] {
      StepDisjointIff(rm, inputs[0]);
      if inputs[0].msg.Ack? ==> PendingClear(rm, inputs[0].from) {
        DisjointThroughoutIff(After(rm, inputs[0]), inputs[1..]);
      } else if inputs[1..] == [] {
        assert !Disjoint(After(rm, inputs[0]).chain);
      }
    }
  }

  // ---------- the runs of a network ----------

  /** What arrives at `h` in a run of a network. */
  ghost function InputsAt(net: Net, events: seq<Event>, h: Nid): seq<Input>
    requires ValidRun(net, events)
    decreases |events|
  {
    if events == [] then []
    else
      var ev := events[0];
      (if ev.Deliver? && ev.to == h then [Input(ev.from, Chan(net, ev.from, h)[0], ev.number)] else [])
      + InputsAt(Step(net, ev), events[1..], h)
  }

  /** A run of a network does to each manager what the messages that arrive there do. */
  lemma {:induction false} RunAtManager(net: Net, events: seq<Event>, h: Nid)
    requires Shape(net) && ValidRun(net, events) && h in net.rms
    ensures AcceptedRun(net.rms[h], InputsAt(net, events, h)) && h in Run(net, events).rms
    ensures Reached(net.rms[h], InputsAt(net, events, h)) == Run(net, events).rms[h]
    decreases |events|
  {
    if events != [] {
      var ev := events[0];
      StepShape(net, ev);
      StepManager(net, ev, h, h);
      RunAtManager(Step(net, ev), events[1..], h);
      var rest := InputsAt(Step(net, ev), events[1..], h);
      if ev.Deliver? && ev.to == h {
        var inp := Input(ev.from, Chan(net, ev.from, h)[0], ev.number);
        assert Accepts(net.rms[h], inp) && After(net.rms[h], inp) == Step(net, ev).rms[h];
        assert ([inp] + rest)[1..] == rest;
      } else {
        assert Step(net, ev).rms[h] == net.rms[h] && [] + rest == rest;
      }
    }
  }

  /** In every reachable state of a network whose table gives no PID to two neighbours of a manager,
      the lists of its neighbours are disjoint, if at that manager no ack arrived after another
      neighbour's install had followed its pid_a. */
  lemma NetworkStaysDisjoint(net: Net, table: seq<Row>, events: seq<Event>, h: Nid)
    requires Initial(net, table) && ValidRun(net, events) && h in net.rms
    requires Disjoint(Build(Align(table, h), h)) && UncrossedRun(net.rms[h], {}, InputsAt(net, events, h))
    ensures h in Run(net, events).rms && Disjoint(Run(net, events).rms[h].chain)
  {
    InitialShape(net, table);
    assert ManagerOk(net, h);
    RunAtManager(net, events, h);
    NeighboursStayDisjoint(net.rms[h], {}, InputsAt(net, events, h));
  }

  /** The lists of a manager are disjoint in every state of a run of the network. */
  ghost predicate NetworkDisjoint(net: Net, events: seq<Event>, h: Nid)
    requires ValidRun(net, events)
    decreases |events|
  {
    && h in net.rms && Disjoint(net.rms[h].chain)
    && (events == [] || NetworkDisjoint(Step(net, events[0]), events[1..], h))
  }

  /** For every network, run and manager that starts with disjoint lists: they are disjoint in every state
      of the run if and only if every ack that arrives there finds its proposal clear of the others. */
  lemma {:induction false} NetworkDisjointIff(net: Net, events: seq<Event>, h: Nid)
    requires Shape(net) && ValidRun(net, events) && h in net.rms && Disjoint(net.rms[h].chain)
    ensures WellFormed(net.rms[h]) && AcceptedRun(net.rms[h], InputsAt(net, events, h))
    ensures NetworkDisjoint(net, events, h) <==> AcksClear(net.rms[h], InputsAt(net, events, h))
    decreases |events|
  {
    hide Disjoint, PendingClear, After;
    assert ManagerOk(net, h);
    RunAtManager(net, events, h);
    if events != [] {
      var ev := events[0];
      var next, rest := Step(net, ev), InputsAt(Step(net, ev), events[1..], h);
      StepShape(net, ev);
      StepManager(net, ev, h, h);
      if ev.Deliver? && ev.to == h {
        var inp := Input(ev.from, Chan(net, ev.from, h)[0], ev.number);
        StepAtManager(net, ev);
        StepDisjointIff(net.rms[h], inp);
        assert InputsAt(net, events, h) == [inp] + rest && ([inp] + rest)[1..] == rest;
        if inp.msg.Ack? ==> PendingClear(net.rms[h], inp.from) {
          NetworkDisjointIff(next, events[1..], h);
        }
      } else {
        assert next.rms[h] == net.rms[h] && [] + rest == rest;
        NetworkDisjointIff(next, events[1..], h);
      }
    }
  }

  lemma StepAtManager(net: Net, ev: Event)
    requires Shape(net) && Enabled(net, ev) && ev.Deliver?
    ensures var inp := Input(ev.from, Chan(net, ev.from, ev.to)[0], ev.number);
      && Accepts(net.rms[ev.to], inp) && ev.to in Step(net, ev).rms
      && After(net.rms[ev.to], inp) == Step(net, ev).rms[ev.to]
  {
  }

  // ---------- what crossing does ----------

  /** Two neighbours propose the same free list one after the other, and both acks arrive. */
  ghost function Crossing(rm: RmState, e1: Nid, e2: Nid, t1: uint32, t2: uint32, pids: seq<uint32>, number: nat)
    : (r: (RmState, RmState))
    requires WellFormed(rm) && 1 <= number <= 101
    requires Knows(rm.chain, e1) && Knows(rm.chain, e2) && e1 != e2
    requires |PidsFor(rm, e1)| <= |pids| && |PidsFor(rm, e2)| <= |pids|
    ensures WellFormed(r.0) && WellFormed(r.1) && Knows(r.0.chain, e1) && Knows(r.1.chain, e1) && Knows(r.1.chain, e2)
  {
    var p1, p2 := Input(e1, PidA(t1, pids), number), Input(e2, PidA(t2, pids), number);
    ReactionFrame(rm, e1, p1.msg, number, e2);
    ReactionFrame(rm, e1, p1.msg, number, e1);
    var rm1 := After(rm, p1);
    ReactionFrame(rm1, e2, p2.msg, number, e1);
    ReactionFrame(rm1, e2, p2.msg, number, e2);
    var rm2 := After(rm1, p2);
    ReactionFrame(rm2, e1, Ack, number, e1);
    ReactionFrame(rm2, e1, Ack, number, e2);
    var rm3 := After(rm2, Input(e1, Ack, number));
    ReactionFrame(rm3, e2, Ack, number, e1);
    ReactionFrame(rm3, e2, Ack, number, e2);
    (rm3, After(rm3, Input(e2, Ack, number)))
  }

  lemma CrossingResult(rm: RmState, e1: Nid, e2: Nid, t1: uint32, t2: uint32, pids: seq<uint32>, number: nat)
    requires WellFormed(rm) && 1 <= number <= 101
    requires Knows(rm.chain, e1) && Knows(rm.chain, e2) && e1 != e2
    requires |PidsFor(rm, e1)| <= |pids| && |PidsFor(rm, e2)| <= |pids| && !Conflict(pids, TakenBy(rm.table))
    ensures var r := Crossing(rm, e1, e2, t1, t2, pids, number);
      && TimeFor(r.0, e1) == t2
      && PidsFor(r.1, e1) == pids[..|PidsFor(rm, e1)|]
      && PidsFor(r.1, e2) == pids[..|PidsFor(rm, e2)|]
  {
    var n1, n2 := |PidsFor(rm, e1)|, |PidsFor(rm, e2)|;
    var p1, p2 := Input(e1, PidA(t1, pids), number), Input(e2, PidA(t2, pids), number);
    PrefixFree(pids, n1, TakenBy(rm.table));
    PrefixFree(pids, n2, TakenBy(rm.table));
    ReactionFrame(rm, e1, p1.msg, number, e2);
    FreeProposal(rm, e1, t1, pids, number);
    var rm1 := After(rm, p1);
    ReactionFrame(rm1, e2, p2.msg, number, e1);
    FreeProposal(rm1, e2, t2, pids, number);
    var rm2 := After(rm1, p2);
    ReactionFrame(rm2, e1, Ack, number, e2);
    AckInstalls(rm2, e1, number);
    var rm3 := After(rm2, Input(e1, Ack, number));
    ReactionFrame(rm3, e2, Ack, number, e1);
    AckInstalls(rm3, e2, number);
  }

  lemma PrefixFree(pids: seq<uint32>, n: nat, taken: seq<uint32>)
    requires n <= |pids| && !Conflict(pids, taken)
    ensures !Conflict(pids[..n], taken)
  {
  }

  lemma FreeProposal(rm: RmState, e: Nid, t: uint32, pids: seq<uint32>, number: nat)
    requires WellFormed(rm) && 1 <= number <= 101 && Knows(rm.chain, e) && |PidsFor(rm, e)| <= |pids|
    requires !Conflict(pids[..|PidsFor(rm, e)|], TakenBy(rm.table))
    ensures var rm' := After(rm, Input(e, PidA(t, pids), number));
      && rm'.chain == rm.chain && rm'.table == rm.table && rm'.pendingTime == t
      && Pending(rm', e, false) == pids[..|PidsFor(rm, e)|]
  {
    CountFits(rm, Find(rm.chain, e));
    Fits(rm, Find(rm.chain, e));
  }

  /** Two crossing negotiations over one free list end with one PID at both neighbours. */
  lemma {:induction false} CrossingBreaksDisjointness(rm: RmState, e1: Nid, e2: Nid, t1: uint32, t2: uint32,
                                                      pids: seq<uint32>, number: nat)
    requires WellFormed(rm) && 1 <= number <= 101
    requires Knows(rm.chain, e1) && Knows(rm.chain, e2) && e1 != e2
    requires |PidsFor(rm, e1)| <= |pids| && |PidsFor(rm, e2)| <= |pids| && !Conflict(pids, TakenBy(rm.table))
    ensures !Disjoint(Crossing(rm, e1, e2, t1, t2, pids, number).1.chain)
  {
    CrossingResult(rm, e1, e2, t1, t2, pids, number);
    var end := Crossing(rm, e1, e2, t1, t2, pids, number).1;
    var i, j := Find(end.chain, e1), Find(end.chain, e2);
    assert end.chain[i].pids[0] == pids[0] == end.chain[j].pids[0];
    assert Conflict(end.chain[i].pids, end.chain[j].pids);
  }

  /** The timer of the last pid_a from a known neighbour among the inputs, or `time`. */
  function LastTime(chain: seq<Neighbour>, inputs: seq<Input>, time: uint32): uint32 {
    if inputs == [] then time
    else
      var last := inputs[|inputs| - 1];
      if last.msg.PidA? && Knows(chain, last.from) then last.msg.time
      else LastTime(chain, inputs[..|inputs| - 1], time)
  }

  lemma {:induction false} LastTimeCons(chain: seq<Neighbour>, inp: Input, rest: seq<Input>, time: uint32)
    ensures LastTime(chain, [inp] + rest, time) ==
            LastTime(chain, rest, if inp.msg.PidA? && Knows(chain, inp.from) then inp.msg.time else time)
  {
    if rest == [] {
      assert ([inp] + rest)[..0] == [];
    } else {
      assert ([inp] + rest)[..|rest|] == [inp] + rest[..|rest| - 1];
      LastTimeCons(chain, inp, rest[..|rest| - 1], time);
    }
  }

  lemma {:induction false} LastTimeSame(chain: seq<Neighbour>, chain': seq<Neighbour>, inputs: seq<Input>, time: uint32)
    requires forall eid :: Knows(chain, eid) <==> Knows(chain', eid)
    ensures LastTime(chain, inputs, time) == LastTime(chain', inputs, time)
  {
    if inputs != [] {
      LastTimeSame(chain, chain', inputs[..|inputs| - 1], time);
    }
  }

  lemma CellStep(rm: RmState, inp: Input)
    requires Accepts(rm, inp)
    ensures var rm' := After(rm, inp);
      && rm'.pendingTime == (if inp.msg.PidA? && Knows(rm.chain, inp.from) then inp.msg.time else rm.pendingTime)
      && forall eid :: Knows(rm'.chain, eid) <==> Knows(rm.chain, eid)
  {
    forall eid
      ensures Knows(After(rm, inp).chain, eid) <==> Knows(rm.chain, eid)
    {
      ReactionFrame(rm, inp.from, inp.msg, inp.number, eid);
    }
    if Knows(rm.chain, inp.from) {
      CountFits(rm, Find(rm.chain, inp.from));
    }
  }

  /** The timer cell holds what the last pid_a of any neighbour left there. */
  lemma {:induction false} CellAfter(rm: RmState, inputs: seq<Input>)
    requires WellFormed(rm) && AcceptedRun(rm, inputs)
    ensures var end := Reached(rm, inputs);
      && WellFormed(end) && end.pendingTime == LastTime(rm.chain, inputs, rm.pendingTime)
      && forall eid :: Knows(end.chain, eid) <==> Knows(rm.chain, eid)
    decreases |inputs|
  {
    hide After, Knows, WellFormed, Accepts;
    if inputs != [] {
      var inp, rest := inputs[0], inputs[1..];
      var rm' := After(rm, inp);
      CellStep(rm, inp);
      CellAfter(rm', rest);
      LastTimeSame(rm.chain, rm'.chain, rest, rm'.pendingTime);
      LastTimeCons(rm.chain, inp, rest, rm.pendingTime);
      assert [inp] + rest == inputs;
    }
  }

  /** The timer cell is shared: whatever arrives between the pid_a of a neighbour and its ack, the
      neighbour gets the timer it proposed, which is also the one it was sent back, if and only if the
      last pid_a taken in by then carried that timer. */
  lemma CrossingTimerIff(rm: RmState, e: Nid, time: uint32, pids: seq<uint32>, number: nat, between: seq<Input>,
                         last: nat)
    requires Accepts(rm, Input(e, PidA(time, pids), number)) && Knows(rm.chain, e) && 1 <= last <= 101
    requires AcceptedRun(After(rm, Input(e, PidA(time, pids), number)), between)
    ensures var offered := React(rm, e, PidA(time, pids), number).replies;
      |offered| == 1 && offered[0].PidB? && offered[0].time == time
    ensures var end := Reached(After(rm, Input(e, PidA(time, pids), number)), between);
      && Accepts(end, Input(e, Ack, last)) && Knows(After(end, Input(e, Ack, last)).chain, e)
      && (TimeFor(After(end, Input(e, Ack, last)), e) == time <==> LastTime(rm.chain, between, time) == time)
  {
    CountFits(rm, Find(rm.chain, e));
    Fits(rm, Find(rm.chain, e));
    var rm' := After(rm, Input(e, PidA(time, pids), number));
    assert rm'.chain == rm.chain && rm'.pendingTime == time;
    CellAfter(rm', between);
    AckInstalls(Reached(rm', between), e, last);
  }
}
