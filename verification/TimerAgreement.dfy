/** The timers of a quiescent link: exactly when the two ends hold the same one. The responder ends up with
    the timer of its own last proposal, the sponsor with what the cell shared by all its neighbours held
    when the last ack came. */
module TimerAgreement {
  import opened Words
  import opened LinkTable
  import opened PidChain
  import opened Negotiation
  import opened Network
  import opened Agreement
  import opened Interleaving

  /** What had arrived before the last ack from `r`, if one arrived. */
  function BeforeLastAck(inputs: seq<Input>, r: Nid): Option<seq<Input>> {
    if inputs == [] then None
    else
      var init, last := inputs[..|inputs| - 1], inputs[|inputs| - 1];
      if last.from == r && last.msg.Ack? then Some(init) else BeforeLastAck(init, r)
  }

  /** The timer of the last pid_a from `r` itself among the inputs, or `time`. */
  function OwnTime(inputs: seq<Input>, r: Nid, time: uint32): uint32 {
    if inputs == [] then time
    else
      var init, last := inputs[..|inputs| - 1], inputs[|inputs| - 1];
      if last.from == r && last.msg.PidA? then last.msg.time else OwnTime(init, r, time)
  }

  /** Where a run of the link starts: what the sponsor knows, its shared cell, its timer for the responder,
      and whatever stands for "no proposal of the responder yet". */
  datatype Start = Start(chain: seq<Neighbour>, cell: uint32, held: uint32, own: uint32)

  /** The timer a sponsor with a cell of its own for `r` would hold. */
  function OwnHeld(past: seq<Input>, r: Nid, at: Start): uint32 {
    match BeforeLastAck(past, r)
    case None => at.held
    case Some(before) => OwnTime(before, r, at.own)
  }

  /** The timer the sponsor holds, with one cell for all its neighbours. */
  function SharedHeld(past: seq<Input>, r: Nid, at: Start): uint32 {
    match BeforeLastAck(past, r)
    case None => at.held
    case Some(before) => LastTime(at.chain, before, at.cell)
  }

  lemma PastSnoc(at: Start, past: seq<Input>, inp: Input, r: Nid)
    ensures LastTime(at.chain, past + [inp], at.cell) ==
            if inp.msg.PidA? && Knows(at.chain, inp.from) then inp.msg.time else LastTime(at.chain, past, at.cell)
    ensures OwnTime(past + [inp], r, at.own) ==
            if inp.from == r && inp.msg.PidA? then inp.msg.time else OwnTime(past, r, at.own)
    ensures OwnHeld(past + [inp], r, at) ==
            if inp.from == r && inp.msg.Ack? then OwnTime(past, r, at.own) else OwnHeld(past, r, at)
    ensures SharedHeld(past + [inp], r, at) ==
            if inp.from == r && inp.msg.Ack? then LastTime(at.chain, past, at.cell) else SharedHeld(past, r, at)
  {
    assert (past + [inp])[..|past|] == past;
  }

  /** With a cell of its own for `r` the link would be in step. */
  ghost predicate OwnInStep(net: Net, s: Nid, r: Nid, at: Start, past: seq<Input>)
    requires Agreement.Link(net, s, r)
  {
    InStep([OwnTime(past, r, at.own)], [OwnHeld(past, r, at)], Held(net.rms[r], s, true),
           Chan(net, s, r), Chan(net, r, s), true)
  }

  /** The sponsor's cell is told by what has arrived there. */
  ghost predicate CellTold(net: Net, s: Nid, r: Nid, at: Start, past: seq<Input>) {
    && Agreement.Link(net, s, r) && WellFormed(net.rms[s])
    && (forall eid :: Knows(net.rms[s].chain, eid) <==> Knows(at.chain, eid))
    && net.rms[s].pendingTime == LastTime(at.chain, past, at.cell)
  }

  /** What has arrived at the sponsor tells the timers of both ends. */
  ghost predicate Told(net: Net, s: Nid, r: Nid, at: Start, past: seq<Input>) {
    && CellTold(net, s, r, at, past)
    && TimeFor(net.rms[s], r) == SharedHeld(past, r, at)
    && OwnInStep(net, s, r, at, past)
  }

  /** What arrives at `h` in one event. */
  ghost function Arrives(net: Net, ev: Event, h: Nid): seq<Input>
    requires Enabled(net, ev)
  {
    if ev.Deliver? && ev.to == h then [Input(ev.from, Chan(net, ev.from, h)[0], ev.number)] else []
  }

  lemma LinkKept(net: Net, ev: Event, s: Nid, r: Nid)
    requires Shape(net) && Enabled(net, ev) && Agreement.Link(net, s, r)
    ensures Agreement.Link(Step(net, ev), s, r) && WellFormed(Step(net, ev).rms[s])
    ensures forall eid :: Knows(Step(net, ev).rms[s].chain, eid) <==> Knows(net.rms[s].chain, eid)
  {
    hide Step;
    StepManager(net, ev, r, s);
    forall eid
      ensures s in Step(net, ev).rms
      ensures Knows(Step(net, ev).rms[s].chain, eid) <==> Knows(net.rms[s].chain, eid)
    {
      StepManager(net, ev, s, eid);
    }
    StepManager(net, ev, s, r);
  }

  /** The link, the cell and the known neighbours after any event. */
  lemma CellAtSponsor(net: Net, ev: Event, s: Nid, r: Nid, at: Start, past: seq<Input>)
    requires Shape(net) && Enabled(net, ev) && CellTold(net, s, r, at, past)
    ensures CellTold(Step(net, ev), s, r, at, past + Arrives(net, ev, s))
  {
    hide LastTime, Shape, WellFormed;
    LinkKept(net, ev, s, r);
    if ev.Deliver? && ev.to == s {
      var inp := Input(ev.from, Chan(net, ev.from, s)[0], ev.number);
      StepAtManager(net, ev);
      CellStep(net.rms[s], inp);
      PastSnoc(at, past, inp, r);
    } else {
      assert past + [] == past;
    }
  }

  /** An event of another link does not touch what the past tells about this one. */
  lemma OtherTold(net: Net, ev: Event, s: Nid, r: Nid, at: Start, past: seq<Input>)
    requires Shape(net) && Enabled(net, ev) && Told(net, s, r, at, past) && !OnLink(ev, s, r)
    ensures Told(Step(net, ev), s, r, at, past + Arrives(net, ev, s))
  {
    hide LastTime, OwnTime, OwnHeld, SharedHeld, InStep;
    CellAtSponsor(net, ev, s, r, at, past);
    OtherAtSponsor(net, ev, s, r, true);
    OtherAtResponder(net, ev, s, r, true);
    OtherChannels(net, ev, s, r);
    assert [TimeFor(Step(net, ev).rms[s], r)] == [TimeFor(net.rms[s], r)];
    if ev.Deliver? && ev.to == s {
      PastSnoc(at, past, Arrives(net, ev, s)[0], r);
    } else {
      assert past + [] == past;
    }
  }

  lemma RequestTold(net: Net, s: Nid, r: Nid, at: Start, past: seq<Input>)
    requires Shape(net) && Enabled(net, Request(s, r)) && Told(net, s, r, at, past)
    ensures Told(Step(net, Request(s, r)), s, r, at, past)
  {
    hide LastTime, OwnTime, OwnHeld, SharedHeld, InStep;
    Asked([OwnTime(past, r, at.own)], [OwnHeld(past, r, at)], Held(net.rms[r], s, true),
          Chan(net, s, r), Chan(net, r, s), true);
  }

  lemma ResponderTold(net: Net, s: Nid, r: Nid, number: nat, at: Start, past: seq<Input>)
    requires Shape(net) && Enabled(net, Deliver(s, r, number)) && Told(net, s, r, at, past)
    ensures Told(Step(net, Deliver(s, r, number)), s, r, at, past)
  {
    hide LastTime, OwnTime, OwnHeld, SharedHeld, InStep;
    var m := Chan(net, s, r)[0];
    assert past + [] == past;
    CellAtSponsor(net, Deliver(s, r, number), s, r, at, past);
    FirstMessage(net, s, r);
    DeliverEffect(net, s, r, number);
    ResponderReaction(net.rms[r], s, m, number, true);
    var re := React(net.rms[r], s, m, number);
    var own, atS, atR := [OwnTime(past, r, at.own)], [OwnHeld(past, r, at)], Held(net.rms[r], s, true);
    if re.replies[0].PidA? {
      Proposed(own, atS, atR, Chan(net, s, r), Chan(net, r, s), re.replies[0], true);
    } else {
      Accepted(own, atS, atR, Chan(net, s, r), Chan(net, r, s), true);
    }
  }

  /** The sponsor's reaction as far as timers go: a pid_b carries the timer of the pid_a it answers. */
  lemma SponsorTimer(rm: RmState, r: Nid, m: Msg, number: nat)
    requires WellFormed(rm) && Knows(rm.chain, r) && Receivable(rm, r, m) && LegalNumber(m, number)
    requires m.PidA? || m.Ack?
    ensures var re := React(rm, r, m, number);
      && Knows(re.rm.chain, r) && TimeFor(re.rm, r) == (if m.Ack? then rm.pendingTime else TimeFor(rm, r))
      && (m.PidA? ==> |re.replies| == 1 && re.replies[0].PidB? && re.replies[0].time == m.time)
      && (m.Ack? ==> re.replies == [])
  {
    SponsorReaction(rm, r, m, number, true);
    var re := React(rm, r, m, number);
    assert [TimeFor(re.rm, r)][0] == if m.Ack? then [rm.pendingTime][0] else [TimeFor(rm, r)][0];
  }

  lemma SponsorTold(net: Net, s: Nid, r: Nid, number: nat, at: Start, past: seq<Input>)
    requires Shape(net) && Enabled(net, Deliver(r, s, number)) && Told(net, s, r, at, past)
    ensures var ev := Deliver(r, s, number); Told(Step(net, ev), s, r, at, past + Arrives(net, ev, s))
  {
    hide LastTime, OwnTime, OwnHeld, SharedHeld, InStep, React, Step;
    var ev, m := Deliver(r, s, number), Chan(net, r, s)[0];
    CellAtSponsor(net, ev, s, r, at, past);
    FirstMessage(net, r, s);
    CompareTotalOrder(s, r, s);
    DeliverEffect(net, r, s, number);
    SponsorTimer(net.rms[s], r, m, number);
    PastSnoc(at, past, Arrives(net, ev, s)[0], r);
    var re := React(net.rms[s], r, m, number);
    var own, atS, atR := [OwnTime(past, r, at.own)], [OwnHeld(past, r, at)], Held(net.rms[r], s, true);
    if m.PidA? {
      assert re.replies == [re.replies[0]] && Value(re.replies[0], true) == [m.time];
      Answered(own, atS, atR, Chan(net, s, r), Chan(net, r, s), re.replies[0], true);
    } else {
      assert Chan(net, s, r) + [] == Chan(net, s, r);
      Acknowledged(own, atS, atR, Chan(net, s, r), Chan(net, r, s), true);
    }
  }

  lemma StepTold(net: Net, ev: Event, s: Nid, r: Nid, at: Start, past: seq<Input>)
    requires Shape(net) && Enabled(net, ev) && Told(net, s, r, at, past)
    ensures Told(Step(net, ev), s, r, at, past + Arrives(net, ev, s))
  {
    hide Told, Step;
    assert s != r by { ToldLink(net, s, r, at, past); }
    assert past + [] == past;
    if !OnLink(ev, s, r) {
      OtherTold(net, ev, s, r, at, past);
    } else if ev.Request? {
      RequestTold(net, s, r, at, past);
    } else if ev.from == s {
      ResponderTold(net, s, r, ev.number, at, past);
    } else {
      SponsorTold(net, s, r, ev.number, at, past);
    }
  }

  lemma ToldLink(net: Net, s: Nid, r: Nid, at: Start, past: seq<Input>)
    requires Told(net, s, r, at, past)
    ensures Agreement.Link(net, s, r)
  {
  }

  lemma InputsStep(net: Net, events: seq<Event>, h: Nid)
    requires ValidRun(net, events)
    ensures InputsAt(net, events, h) ==
            if events == [] then [] else Arrives(net, events[0], h) + InputsAt(Step(net, events[0]), events[1..], h)
  {
  }

  lemma {:induction false} RunTold(net: Net, events: seq<Event>, s: Nid, r: Nid, at: Start, past: seq<Input>)
    requires Shape(net) && ValidRun(net, events) && Told(net, s, r, at, past)
    ensures Told(Run(net, events), s, r, at, past + InputsAt(net, events, s))
    decreases |events|
  {
    hide Told, Arrives, InputsAt;
    InputsStep(net, events, s);
    if events == [] {
      assert past + [] == past;
    } else {
      var ev := events[0];
      StepShape(net, ev);
      StepTold(net, ev, s, r, at, past);
      RunTold(Step(net, ev), events[1..], s, r, at, past + Arrives(net, ev, s));
      var rest := InputsAt(Step(net, ev), events[1..], s);
      assert past + Arrives(net, ev, s) + rest == past + (Arrives(net, ev, s) + rest);
    }
  }

  lemma InitialTold(net: Net, table: seq<Row>, s: Nid, r: Nid, own: uint32)
    requires Initial(net, table) && Agreement.Link(net, s, r)
    ensures Told(net, s, r, Start(net.rms[s].chain, net.rms[s].pendingTime, TimeFor(net.rms[s], r), own), [])
  {
    InitialManager(net, table, s);
    InitialLink(net, table, s, r);
    assert ManagerOk(net, s);
  }

  /** With both channels empty the responder holds what the sponsor would hold with a cell of its own. */
  lemma QuiescentTimers(net: Net, s: Nid, r: Nid, at: Start, past: seq<Input>)
    requires Told(net, s, r, at, past) && Chan(net, s, r) == [] && Chan(net, r, s) == []
    ensures TimeFor(net.rms[s], r) == SharedHeld(past, r, at) && TimeFor(net.rms[r], s) == OwnHeld(past, r, at)
  {
    assert [TimeFor(net.rms[r], s)][0] == [OwnHeld(past, r, at)][0];
  }

  /** The exact law of the timers: for every link table and every run, when both channels between a sponsor
      and a responder are empty, they hold the same timer if and only if no ack ever reached the sponsor, or
      the last pid_a of any neighbour that it took in before the last ack carried the timer of the
      responder's own last pid_a. There is one by then: the law holds whatever `own` stands for none. */
  lemma TimersAgreeIff(net: Net, table: seq<Row>, events: seq<Event>, s: Nid, r: Nid, own: uint32)
    requires Initial(net, table) && ValidRun(net, events) && Agreement.Link(net, s, r)
    requires Chan(Run(net, events), s, r) == [] && Chan(Run(net, events), r, s) == []
    ensures var end, cell := Run(net, events), net.rms[s].pendingTime;
      && Agreement.Link(end, s, r)
      && (TimeFor(end.rms[s], r) == TimeFor(end.rms[r], s) <==>
            match BeforeLastAck(InputsAt(net, events, s), r)
            case None => true
            case Some(before) => LastTime(net.rms[s].chain, before, cell) == OwnTime(before, r, own))
  {
    hide LastTime, OwnTime, Run, ValidRun, Initial, Told, InputsAt;
    InitialShape(net, table);
    InitialTold(net, table, s, r, own);
    var at := Start(net.rms[s].chain, net.rms[s].pendingTime, TimeFor(net.rms[s], r), own);
    RunTold(net, events, s, r, at, []);
    var past := InputsAt(net, events, s);
    assert [] + past == past;
    ToldLink(Run(net, events), s, r, at, past);
    QuiescentTimers(Run(net, events), s, r, at, past);
  }
}
