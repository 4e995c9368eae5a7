/** Agreement: in every reachable state, once both channels of a link are empty the two managers
    hold the same PID list for each other, however many negotiations overlapped or were rejected. */
module Agreement {
  import opened Words
  import opened LinkTable
  import opened PidChain
  import opened Negotiation
  import opened Network

  predicate HasA(q: seq<Msg>) { exists i :: 0 <= i < |q| && q[i].PidA? }
  predicate HasB(q: seq<Msg>) { exists i :: 0 <= i < |q| && q[i].PidB? }
  predicate HasAck(q: seq<Msg>) { exists i :: 0 <= i < |q| && q[i].Ack? }

  /** What is being agreed on: the PID list of a message or, as a one-element list, its timer. */
  function Value(m: Msg, timer: bool): seq<uint32>
    requires m.PidA? || m.PidB?
  {
    if timer then [m.time] else m.pids
  }

  /** The value of the newest pid_b under way. */
  function LastB(q: seq<Msg>, timer: bool): seq<uint32>
    requires HasB(q)
  {
    if q[|q| - 1].PidB? then Value(q[|q| - 1], timer) else LastB(q[..|q| - 1], timer)
  }

  lemma HasTail(q: seq<Msg>)
    requires q != []
    ensures HasA(q) <==> q[0].PidA? || HasA(q[1..])
    ensures HasB(q) <==> q[0].PidB? || HasB(q[1..])
    ensures HasAck(q) <==> q[0].Ack? || HasAck(q[1..])
  {
    assert forall i :: 1 <= i < |q| ==> q[i] == q[1..][i - 1];
  }

  lemma HasSnoc(q: seq<Msg>, m: Msg)
    ensures HasA(q + [m]) <==> HasA(q) || m.PidA?
    ensures HasB(q + [m]) <==> HasB(q) || m.PidB?
    ensures HasAck(q + [m]) <==> HasAck(q) || m.Ack?
  {
    assert forall i :: 0 <= i < |q| ==> q[i] == (q + [m])[i];
    assert (q + [m])[|q|] == m;
  }

  lemma {:induction false} LastBTail(q: seq<Msg>, timer: bool)
    requires HasB(q)
    ensures if HasB(q[1..]) then LastB(q, timer) == LastB(q[1..], timer)
            else q[0].PidB? && LastB(q, timer) == Value(q[0], timer)
  {
    HasTail(q);
    var n := |q| - 1;
    if !q[n].PidB? {
      LastBTail(q[..n], timer);
      assert q[..n][1..] == q[1..][..n - 1];
    }
  }

  lemma LastBSnoc(q: seq<Msg>, m: Msg, timer: bool)
    ensures m.PidB? ==> HasB(q + [m]) && LastB(q + [m], timer) == Value(m, timer)
    ensures !m.PidB? ==> HasB(q + [m]) == HasB(q) && (HasB(q) ==> LastB(q + [m], timer) == LastB(q, timer))
  {
    HasSnoc(q, m);
    assert (q + [m])[..|q|] == q;
  }

  // ---------- the invariant of one link ----------

  /** With `toR` and `toS` the channels to responder and sponsor:
      - the newest pid_b under way carries the pending proposal of the sponsor;
      - with no pid_a or pid_b under way but an ack, the responder has installed that proposal;
      - with none of the three under way, both ends hold the same value. */
  predicate InStep(pending: seq<uint32>, atS: seq<uint32>, atR: seq<uint32>, toR: seq<Msg>, toS: seq<Msg>,
                   timer: bool) {
    && (HasB(toR) ==> LastB(toR, timer) == pending)
    && (!HasA(toS) && !HasB(toR) && HasAck(toS) ==> atR == pending)
    && (!HasA(toS) && !HasB(toR) && !HasAck(toS) ==> atR == atS)
  }

  lemma Asked(pending: seq<uint32>, atS: seq<uint32>, atR: seq<uint32>, toR: seq<Msg>, toS: seq<Msg>, timer: bool)
    requires InStep(pending, atS, atR, toR, toS, timer)
    ensures InStep(pending, atS, atR, toR + [ChangeRequest], toS, timer)
  {
    HasSnoc(toR, ChangeRequest);
    LastBSnoc(toR, ChangeRequest, timer);
  }

  /** A change_request or a rejected pid_b leads to a new pid_a. */
  lemma Proposed(pending: seq<uint32>, atS: seq<uint32>, atR: seq<uint32>, toR: seq<Msg>, toS: seq<Msg>, m: Msg,
                 timer: bool)
    requires InStep(pending, atS, atR, toR, toS, timer) && toR != [] && m.PidA?
    ensures InStep(pending, atS, atR, toR[1..], toS + [m], timer)
  {
    HasTail(toR);
    HasSnoc(toS, m);
    if HasB(toR) {
      LastBTail(toR, timer);
    }
  }

  lemma Accepted(pending: seq<uint32>, atS: seq<uint32>, atR: seq<uint32>, toR: seq<Msg>, toS: seq<Msg>, timer: bool)
    requires InStep(pending, atS, atR, toR, toS, timer) && toR != [] && toR[0].PidB?
    ensures InStep(pending, atS, Value(toR[0], timer), toR[1..], toS + [Ack], timer)
  {
    HasTail(toR);
    HasSnoc(toS, Ack);
    LastBTail(toR, timer);
  }

  lemma Answered(pending: seq<uint32>, atS: seq<uint32>, atR: seq<uint32>, toR: seq<Msg>, toS: seq<Msg>, m: Msg,
                 timer: bool)
    requires toS != [] && m.PidB?
    ensures InStep(Value(m, timer), atS, atR, toR + [m], toS[1..], timer)
  {
    HasSnoc(toR, m);
    LastBSnoc(toR, m, timer);
  }

  lemma Acknowledged(pending: seq<uint32>, atS: seq<uint32>, atR: seq<uint32>, toR: seq<Msg>, toS: seq<Msg>,
                     timer: bool)
    requires InStep(pending, atS, atR, toR, toS, timer) && toS != [] && toS[0].Ack?
    ensures InStep(pending, pending, atR, toR, toS[1..], timer)
  {
    HasTail(toS);
  }

  // ---------- the invariant of the network ----------

  /** `s` is the sponsor of a link to another manager `r`. */
  predicate Link(net: Net, s: Nid, r: Nid) {
    && s in net.rms && r in net.rms && s != r && CompareNid(s, r) <= 0
    && Knows(net.rms[s].chain, r) && Knows(net.rms[r].chain, s)
  }

  ghost function Pending(rm: RmState, eid: Nid, timer: bool): seq<uint32>
    requires WellFormed(rm) && Knows(rm.chain, eid)
  {
    if timer then [rm.pendingTime] else Fits(rm, Find(rm.chain, eid)); PendingFor(rm, eid)
  }

  function Held(rm: RmState, eid: Nid, timer: bool): seq<uint32>
    requires Knows(rm.chain, eid)
  {
    if timer then [TimeFor(rm, eid)] else PidsFor(rm, eid)
  }

  ghost predicate InStepLink(net: Net, s: Nid, r: Nid, timer: bool) {
    && Link(net, s, r) && WellFormed(net.rms[s])
    && InStep(Pending(net.rms[s], r, timer), Held(net.rms[s], r, timer), Held(net.rms[r], s, timer),
              Chan(net, s, r), Chan(net, r, s), timer)
  }

  /** The event takes in a pid_a of another neighbour of `s`, which overwrites the timer cell that all
      proposals of `s` share. */
  predicate OverwritesCell(net: Net, ev: Event, s: Nid, r: Nid) {
    ev.Deliver? && ev.to == s && ev.from != r && Chan(net, ev.from, s) != [] && Chan(net, ev.from, s)[0].PidA?
  }

  /** The link still relies on the timer cell of its sponsor: a pid_b is under way, or an ack with no
      pid_a behind it that would start the negotiation again. */
  predicate ReliesOnCell(net: Net, s: Nid, r: Nid) {
    HasB(Chan(net, s, r)) || (HasAck(Chan(net, r, s)) && !HasA(Chan(net, r, s)))
  }

  /** An event that overwrites the cell finds the link not relying on it, or writes what is there. */
  predicate CellKept(net: Net, ev: Event, s: Nid, r: Nid)
    requires s in net.rms
  {
    OverwritesCell(net, ev, s, r) ==>
      Chan(net, ev.from, s)[0].time == net.rms[s].pendingTime || !ReliesOnCell(net, s, r)
  }

  predicate OnLink(ev: Event, s: Nid, r: Nid) {
    match ev
    case Request(a, b) => a == s && b == r
    case Deliver(a, b, _) => (a == s && b == r) || (a == r && b == s)
  }

  lemma OtherAtSponsor(net: Net, ev: Event, s: Nid, r: Nid, timer: bool)
    requires Shape(net) && Enabled(net, ev) && Link(net, s, r) && !OnLink(ev, s, r)
    ensures var rm, rm' := net.rms[s], Step(net, ev).rms[s];
      && WellFormed(rm) && WellFormed(rm') && Knows(rm'.chain, r)
      && Held(rm', r, timer) == Held(rm, r, timer)
      && Pending(rm', r, timer) == if timer && OverwritesCell(net, ev, s, r) then [Chan(net, ev.from, s)[0].time]
                                   else Pending(rm, r, timer)
  {
    StepManager(net, ev, s, r);
    assert ManagerOk(net, s);
    if OverwritesCell(net, ev, s, r) {
      assert MsgShape(net, ev.from, s, Chan(net, ev.from, s)[0]) && LinkShape(net, ev.from, s);
    }
  }

  /** Overwriting the pending value keeps a link in step exactly while it does not rely on it. */
  lemma PendingChanges(pending: seq<uint32>, pending': seq<uint32>, atS: seq<uint32>, atR: seq<uint32>,
                       toR: seq<Msg>, toS: seq<Msg>, timer: bool)
    requires InStep(pending, atS, atR, toR, toS, timer)
    ensures InStep(pending', atS, atR, toR, toS, timer) <==>
            pending' == pending || (!HasB(toR) && (HasA(toS) || !HasAck(toS)))
  {
  }

  lemma OtherAtResponder(net: Net, ev: Event, s: Nid, r: Nid, timer: bool)
    requires Shape(net) && Enabled(net, ev) && Link(net, s, r) && !OnLink(ev, s, r)
    ensures var rm, rm' := net.rms[r], Step(net, ev).rms[r];
      Knows(rm'.chain, s) && Held(rm', s, timer) == Held(rm, s, timer)
  {
    StepManager(net, ev, r, s);
  }

  lemma OtherChannels(net: Net, ev: Event, s: Nid, r: Nid)
    requires Shape(net) && Enabled(net, ev) && Link(net, s, r) && !OnLink(ev, s, r)
    ensures Chan(Step(net, ev), s, r) == Chan(net, s, r) && Chan(Step(net, ev), r, s) == Chan(net, r, s)
  {
    assert ManagerOk(net, r);
    if Sponsors(net.rms[r], s) {
      SponsorIsSmaller(net.rms[r], s);
      CompareTotalOrder(s, r, s);
    }
    StepChannel(net, ev, s, r);
    StepChannel(net, ev, r, s);
    assert Chan(net, s, r) + [] == Chan(net, s, r) && Chan(net, r, s) + [] == Chan(net, r, s);
  }

  /** An event of some other link leaves this link in step, its timer exactly if the cell is kept. */
  lemma OtherEvent(net: Net, ev: Event, s: Nid, r: Nid, timer: bool)
    requires Shape(net) && Enabled(net, ev) && Shape(Step(net, ev))
    requires InStepLink(net, s, r, timer) && !OnLink(ev, s, r)
    ensures InStepLink(Step(net, ev), s, r, timer) <==> (timer ==> CellKept(net, ev, s, r))
  {
    OtherAtSponsor(net, ev, s, r, timer);
    OtherAtResponder(net, ev, s, r, timer);
    OtherChannels(net, ev, s, r);
    PendingChanges(Pending(net.rms[s], r, timer), Pending(Step(net, ev).rms[s], r, timer),
                   Held(net.rms[s], r, timer), Held(net.rms[r], s, timer), Chan(net, s, r), Chan(net, r, s), timer);
  }

  // ---------- the events of the link itself ----------

  lemma ResponderReaction(rm: RmState, s: Nid, m: Msg, number: nat, timer: bool)
    requires WellFormed(rm) && Knows(rm.chain, s) && Receivable(rm, s, m) && LegalNumber(m, number)
    requires m.ChangeRequest? || (m.PidB? && |m.pids| == |PidsFor(rm, s)|)
    ensures var re := React(rm, s, m, number);
      && Knows(re.rm.chain, s) && |re.replies| == 1
      && (re.replies[0].PidA? ==> Held(re.rm, s, timer) == Held(rm, s, timer))
      && (!re.replies[0].PidA? ==> re.replies == [Ack] && m.PidB? && Held(re.rm, s, timer) == Value(m, timer))
  {
    CountFits(rm, Find(rm.chain, s));
    ReactionFrame(rm, s, m, number, s);
    assert m.PidB? ==> m.pids[..|m.pids|] == m.pids;
  }

  lemma SponsorReaction(rm: RmState, r: Nid, m: Msg, number: nat, timer: bool)
    requires WellFormed(rm) && Knows(rm.chain, r) && Receivable(rm, r, m) && LegalNumber(m, number)
    requires m.Ack? || m.PidA?
    ensures var re := React(rm, r, m, number);
      && WellFormed(re.rm) && Knows(re.rm.chain, r)
      && (m.PidA? ==> |re.replies| == 1 && re.replies[0].PidB? && Held(re.rm, r, timer) == Held(rm, r, timer)
                      && Pending(re.rm, r, timer) == Value(re.replies[0], timer))
      && (m.Ack? ==> re.replies == [] && Pending(re.rm, r, timer) == Pending(rm, r, timer)
                     && Held(re.rm, r, timer) == Pending(rm, r, timer))
  {
    CountFits(rm, Find(rm.chain, r));
    Fits(rm, Find(rm.chain, r));
    ReactionFrame(rm, r, m, number, r);
  }

  lemma RequestEvent(net: Net, s: Nid, r: Nid, timer: bool)
    requires Shape(net) && Enabled(net, Request(s, r)) && InStepLink(net, s, r, timer)
    ensures InStepLink(Step(net, Request(s, r)), s, r, timer)
  {
    Asked(Pending(net.rms[s], r, timer), Held(net.rms[s], r, timer), Held(net.rms[r], s, timer),
          Chan(net, s, r), Chan(net, r, s), timer);
  }

  /** A delivery between two managers changes only the receiver and the two channels. */
  lemma DeliverEffect(net: Net, a: Nid, b: Nid, number: nat)
    requires Shape(net) && Enabled(net, Deliver(a, b, number)) && a in net.rms && a != b
    ensures var net' := Step(net, Deliver(a, b, number));
      && net'.rms.Keys == net.rms.Keys
      && net'.rms[a] == net.rms[a]
      && net'.rms[b] == React(net.rms[b], a, Chan(net, a, b)[0], number).rm
      && Chan(net', a, b) == Chan(net, a, b)[1..]
      && Chan(net', b, a) == Chan(net, b, a) + React(net.rms[b], a, Chan(net, a, b)[0], number).replies
  {
    StepChannel(net, Deliver(a, b, number), a, b);
    StepChannel(net, Deliver(a, b, number), b, a);
    assert Chan(net, a, b)[1..] + [] == Chan(net, a, b)[1..];
  }

  /** What the first message of a channel between two managers looks like to its receiver. */
  lemma FirstMessage(net: Net, a: Nid, b: Nid)
    requires Shape(net) && b in net.rms && a != b && Chan(net, a, b) != []
    ensures var m := Chan(net, a, b)[0];
      && a in net.rms && WellFormed(net.rms[a]) && WellFormed(net.rms[b])
      && Knows(net.rms[b].chain, a) && Receivable(net.rms[b], a, m)
      && (m.ChangeRequest? || m.PidB? <==> CompareNid(a, b) <= 0)
      && (m.PidA? || m.PidB? ==> |m.pids| == |PidsFor(net.rms[b], a)|)
  {
    assert MsgShape(net, a, b, Chan(net, a, b)[0]) && LinkShape(net, a, b) && ManagerOk(net, a) && ManagerOk(net, b);
    CompareTotalOrder(a, b, a);
  }

  lemma ResponderEvent(net: Net, s: Nid, r: Nid, number: nat, timer: bool)
    requires Shape(net) && Enabled(net, Deliver(s, r, number)) && InStepLink(net, s, r, timer)
    ensures InStepLink(Step(net, Deliver(s, r, number)), s, r, timer)
  {
    var m := Chan(net, s, r)[0];
    FirstMessage(net, s, r);
    DeliverEffect(net, s, r, number);
    ResponderReaction(net.rms[r], s, m, number, timer);
    var re := React(net.rms[r], s, m, number);
    var pending, atS, atR := Pending(net.rms[s], r, timer), Held(net.rms[s], r, timer), Held(net.rms[r], s, timer);
    if re.replies[0].PidA? {
      Proposed(pending, atS, atR, Chan(net, s, r), Chan(net, r, s), re.replies[0], timer);
    } else {
      Accepted(pending, atS, atR, Chan(net, s, r), Chan(net, r, s), timer);
    }
  }

  lemma SponsorEvent(net: Net, s: Nid, r: Nid, number: nat, timer: bool)
    requires Shape(net) && Enabled(net, Deliver(r, s, number)) && InStepLink(net, s, r, timer)
    ensures InStepLink(Step(net, Deliver(r, s, number)), s, r, timer)
  {
    var m := Chan(net, r, s)[0];
    FirstMessage(net, r, s);
    CompareTotalOrder(s, r, s);
    DeliverEffect(net, r, s, number);
    SponsorReaction(net.rms[s], r, m, number, timer);
    var re := React(net.rms[s], r, m, number);
    var pending, atS, atR := Pending(net.rms[s], r, timer), Held(net.rms[s], r, timer), Held(net.rms[r], s, timer);
    if m.PidA? {
      Answered(pending, atS, atR, Chan(net, s, r), Chan(net, r, s), re.replies[0], timer);
    } else {
      assert Chan(net, s, r) + [] == Chan(net, s, r);
      Acknowledged(pending, atS, atR, Chan(net, s, r), Chan(net, r, s), timer);
    }
  }

  /** Every event keeps the lists of a link in step; it keeps the timer in step if and only if it
      keeps the shared cell or finds the link not relying on it. */
  lemma {:induction false} StepInStep(net: Net, ev: Event, s: Nid, r: Nid, timer: bool)
    requires Shape(net) && Enabled(net, ev) && InStepLink(net, s, r, timer)
    ensures InStepLink(Step(net, ev), s, r, timer) <==> (timer ==> CellKept(net, ev, s, r))
  {
    if !OnLink(ev, s, r) {
      StepShape(net, ev);
      OtherEvent(net, ev, s, r, timer);
    } else if ev.Request? {
      RequestEvent(net, s, r, timer);
    } else if ev.from == s {
      ResponderEvent(net, s, r, ev.number, timer);
    } else {
      SponsorEvent(net, s, r, ev.number, timer);
    }
  }

  // ---------- every run ----------

  /** Every event of the run keeps the timer cell of `s` for its link to `r`. */
  ghost predicate CellKeptRun(net: Net, events: seq<Event>, s: Nid, r: Nid)
    requires ValidRun(net, events)
    decreases |events|
  {
    events == [] ||
    (s in net.rms && CellKept(net, events[0], s, r) && CellKeptRun(Step(net, events[0]), events[1..], s, r))
  }

  /** The link is in step in every state of the run. */
  ghost predicate InStepThroughout(net: Net, events: seq<Event>, s: Nid, r: Nid, timer: bool)
    requires ValidRun(net, events)
    decreases |events|
  {
    InStepLink(net, s, r, timer) && (events == [] || InStepThroughout(Step(net, events[0]), events[1..], s, r, timer))
  }

  lemma {:induction false} RunShape(net: Net, events: seq<Event>)
    requires Shape(net) && ValidRun(net, events)
    ensures Shape(Run(net, events)) && Run(net, events).rms.Keys == net.rms.Keys
    ensures forall a, b :: a in net.rms ==> Knows(Run(net, events).rms[a].chain, b) == Knows(net.rms[a].chain, b)
    decreases |events|
  {
    if events != [] {
      StepShape(net, events[0]);
      RunShape(Step(net, events[0]), events[1..]);
      forall a, b | a in net.rms
        ensures Knows(Step(net, events[0]).rms[a].chain, b) == Knows(net.rms[a].chain, b)
      {
        StepManager(net, events[0], a, b);
      }
    }
  }

  /** The lists of a link are in step throughout every run, its timer in exactly those runs whose
      every event keeps the shared cell. */
  lemma {:induction false} RunInStep(net: Net, events: seq<Event>, s: Nid, r: Nid, timer: bool)
    requires Shape(net) && ValidRun(net, events) && InStepLink(net, s, r, timer)
    ensures InStepThroughout(net, events, s, r, timer) <==> (timer ==> CellKeptRun(net, events, s, r))
    ensures (timer ==> CellKeptRun(net, events, s, r)) ==> InStepLink(Run(net, events), s, r, timer)
    decreases |events|
  {
    if events != [] {
      StepShape(net, events[0]);
      StepInStep(net, events[0], s, r, timer);
      if timer ==> CellKept(net, events[0], s, r) {
        RunInStep(Step(net, events[0]), events[1..], s, r, timer);
      }
    }
  }

  lemma InitialInStep(net: Net, table: seq<Row>, s: Nid, r: Nid, timer: bool)
    requires Initial(net, table) && Link(net, s, r)
    ensures InStepLink(net, s, r, timer)
  {
    InitialManager(net, table, s);
    InitialLink(net, table, s, r);
    assert ManagerOk(net, s);
  }

  /** The main law: for every link table, every set of managers that loaded it and every run, if
      both channels between two managers are empty then they hold the same PID list for each other,
      and the same timer if the run kept the cell in which the sponsor holds it. */
  lemma {:induction false} Agreement(net: Net, table: seq<Row>, events: seq<Event>, a: Nid, b: Nid)
    requires Initial(net, table) && ValidRun(net, events)
    requires a in net.rms && b in net.rms && Knows(net.rms[a].chain, b)
    requires Chan(Run(net, events), a, b) == [] && Chan(Run(net, events), b, a) == []
    ensures var end := Run(net, events);
      && a in end.rms && b in end.rms && Knows(end.rms[a].chain, b) && Knows(end.rms[b].chain, a)
      && PidsFor(end.rms[a], b) == PidsFor(end.rms[b], a)
      && ((if CompareNid(a, b) <= 0 then CellKeptRun(net, events, a, b) else CellKeptRun(net, events, b, a)) ==>
            TimeFor(end.rms[a], b) == TimeFor(end.rms[b], a))
  {
    InitialShape(net, table);
    RunShape(net, events);
    InitialLink(net, table, a, b);
    CompareTotalOrder(a, b, a);
    if a != b {
      var s, r := if CompareNid(a, b) <= 0 then a else b, if CompareNid(a, b) <= 0 then b else a;
      InitialInStep(net, table, s, r, false);
      RunInStep(net, events, s, r, false);
      if CellKeptRun(net, events, s, r) {
        InitialInStep(net, table, s, r, true);
        RunInStep(net, events, s, r, true);
      }
    }
  }
}
