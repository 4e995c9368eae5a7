/** The trap words of a monitored port: bits flipped as its load crosses the thresholds and as its link goes
    down and up (get_port_info.c and trap.c of NetworkMonitoringTools/stats_send_ver_test1). */
module TrapMonitor {
  const CONNECTION: bv32 := 1
  const BANDWIDTH_HIGH: bv32 := 2
  const BANDWIDTH_LOW: bv32 := 4
  const LINKCONNECT: bv32 := 8
  const THRES_HIGH: real := 0.0006
  const THRES_LOW: real := 0.0001

  /** One turn of the monitoring loop: a load sample, a failed bandwidth query, or a link found down that
      comes up again. */
  datatype Turn = Sample(load: real) | NoBandwidth | LinkLost

  /** The trap word sent to the manager, and the word and level kept for a communication port. */
  datatype Traps = Traps(flag: nat, sent: bv32, kept: bv32, level: nat)

  const QUIET := Traps(0, 0, 0, 0)

  /** What the loop has last reported about the load: with a load on a threshold, the old report stays. */
  function Reported(load: real, flag: nat): nat {
    if load > THRES_HIGH || (load == THRES_HIGH && flag == 1) then 1
    else if load < THRES_LOW || (load == THRES_LOW && flag == 2) then 2
    else 0
  }

  function SentFor(flag: nat): bv32 {
    if flag == 1 then BANDWIDTH_HIGH else if flag == 2 then BANDWIDTH_LOW else 0
  }

  /** The low-load trap is never kept for the port. */
  function KeptFor(flag: nat, communicates: bool): bv32 {
    if communicates && flag == 1 then BANDWIDTH_HIGH else 0
  }

  /** Level 2 means that a link or connection bit is set, level 0 that none is. */
  predicate LevelTells(level: nat, word: bv32) {
    level <= 2 && (level == 2 <==> word & (CONNECTION | LINKCONNECT) != 0) && (level == 0 <==> word == 0)
  }

  /** The flag says what was reported about the load. The sent word has just that bit, and the connection
      bit exactly while the link is lost; the kept word of a communication port likewise, but for low
      load. Its level is 2 exactly while the link is lost, else 1 exactly while high load is reported. */
  predicate InStep(t: Traps, communicates: bool, lost: bool) {
    var bit := if lost then CONNECTION else 0;
    && t.flag <= 2
    && t.sent == SentFor(t.flag) | bit
    && t.kept == KeptFor(t.flag, communicates) | (if communicates then bit else 0)
    && (t.level == 2 <==> communicates && lost)
    && (t.level == 1 <==> communicates && !lost && t.flag == 1)
    && t.level <= 2
  }

  class Monitor {
    const communicates: bool
    var flag: nat
    var sent: bv32
    var kept: bv32
    var level: nat
    ghost var words: seq<bv32>        // every value the sent word has taken when it was sent

    constructor (communicates: bool)
      ensures this.communicates == communicates && State() == QUIET && words == []
    {
      this.communicates, flag, sent, kept, level, words := communicates, 0, 0, 0, 0, [];
    }

    function State(): Traps
      reads this
    {
      Traps(flag, sent, kept, level)
    }

    /** `trap_port_set`. */
    method PortSet(bit: bv32)
      modifies `sent
      ensures sent == old(sent) ^ bit
    {
      sent := sent ^ bit;
    }

    /** `trap_state_mark`, called for communication ports only. */
    method Mark(bit: bv32)
      modifies `kept, `level
      ensures if communicates then kept == old(kept) ^ bit && LevelTells(level, kept)
              else kept == old(kept) && level == old(level)
    {
      if communicates {
        kept := kept ^ bit;
        if kept & CONNECTION != 0 || kept & LINKCONNECT != 0 {
          level := 2;
        } else if kept == 0 {
          level := 0;
        } else {
          level := 1;
        }
      }
    }

    /** The switch over what has been reported before. */
    method Judge(load: real)
      requires InStep(State(), communicates, false)
      modifies `flag, `sent, `kept, `level
      ensures InStep(State(), communicates, false) && flag == Reported(load, old(flag))
    {
      if flag == 0 {
        if load > THRES_HIGH {
          PortSet(BANDWIDTH_HIGH);
          flag := 1;
          Mark(BANDWIDTH_HIGH);
        } else if load < THRES_LOW {
          PortSet(BANDWIDTH_LOW);
          flag := 2;
        }
      } else if flag == 1 {
        if load < THRES_HIGH {
          PortSet(BANDWIDTH_HIGH);
          flag := 0;
          Mark(BANDWIDTH_HIGH);
          if load < THRES_LOW {
            PortSet(BANDWIDTH_LOW);
            flag := 2;
          }
        }
      } else {
        if load > THRES_LOW {
          PortSet(BANDWIDTH_LOW);
          flag := 0;
          if load > THRES_HIGH {
            PortSet(BANDWIDTH_HIGH);
            flag := 1;
            Mark(BANDWIDTH_HIGH);
          }
        }
      }
    }

    /** The link is found down: the connection bit goes up in both words. */
    method LinkDown()
      requires InStep(State(), communicates, false)
      modifies `sent, `kept, `level
      ensures InStep(State(), communicates, true)
    {
      PortSet(CONNECTION);
      Mark(CONNECTION);
    }

    /** The link is back: the connection bit goes down in both words. */
    method LinkUp()
      requires InStep(State(), communicates, true)
      modifies `sent, `kept, `level
      ensures InStep(State(), communicates, false)
    {
      PortSet(CONNECTION);
      Mark(CONNECTION);
    }

    /** One turn of the loop; a lost link is reported when it is noticed and again when it is back. */
    method Turn(turn: Turn)
      requires InStep(State(), communicates, false)
      modifies this
      ensures InStep(State(), communicates, false)
      ensures flag == (if turn.Sample? then Reported(turn.load, old(flag)) else old(flag))
      ensures words == old(words) +
        if turn.LinkLost? then [SentFor(old(flag)) | CONNECTION, SentFor(old(flag))] else [SentFor(flag)]
    {
      match turn {
        case Sample(load) =>
          Judge(load);
          words := words + [sent];
        case NoBandwidth =>
          words := words + [sent];
        case LinkLost =>
          LinkDown();
          words := words + [sent];
          LinkUp();
          words := words + [sent];
      }
    }

    /** Any number of turns. */
    method Run(turns: seq<Turn>)
      requires InStep(State(), communicates, false)
      modifies this
      ensures InStep(State(), communicates, false) && flag == FlagAfter(turns, old(flag))
    {
      var i := 0;
      while i < |turns|
        invariant 0 <= i <= |turns| && InStep(State(), communicates, false)
        invariant flag == FlagAfter(turns[..i], old(flag))
      {
        assert turns[..i + 1][..i] == turns[..i];
        Turn(turns[i]);
        i := i + 1;
      }
      assert turns[..i] == turns;
    }
  }

  function FlagAfter(turns: seq<Turn>, flag: nat): nat {
    if turns == [] then flag
    else
      var before := FlagAfter(turns[..|turns| - 1], flag);
      if turns[|turns| - 1].Sample? then Reported(turns[|turns| - 1].load, before) else before
  }

  function LastLoad(turns: seq<Turn>): real
    requires exists i :: 0 <= i < |turns| && turns[i].Sample?
  {
    if turns[|turns| - 1].Sample? then turns[|turns| - 1].load
    else
      assert forall i :: 0 <= i < |turns| - 1 ==> turns[..|turns| - 1][i] == turns[i];
      LastLoad(turns[..|turns| - 1])
  }

  /** After every run the report agrees with the last load sampled, whatever links were lost since: high
      means at or above the high threshold, low at or below the low one, none between the two. */
  lemma {:induction false} ReportMatchesLoad(turns: seq<Turn>, flag: nat)
    requires exists i :: 0 <= i < |turns| && turns[i].Sample?
    ensures match FlagAfter(turns, flag)
            case 0 => THRES_LOW <= LastLoad(turns) <= THRES_HIGH
            case 1 => LastLoad(turns) >= THRES_HIGH
            case f => f == 2 && LastLoad(turns) <= THRES_LOW
  {
    if !turns[|turns| - 1].Sample? {
      var init := turns[..|turns| - 1];
      assert forall i :: 0 <= i < |turns| - 1 ==> init[i] == turns[i];
      ReportMatchesLoad(init, flag);
    }
  }

  /** Strictly outside or inside the thresholds the report does not depend on what was reported before:
      only a load exactly on a threshold leaves room for two reports. */
  lemma ReportDependsOnPastIff(load: real)
    ensures (exists a: nat, b: nat :: a <= 2 && b <= 2 && Reported(load, a) != Reported(load, b))
      <==> load == THRES_HIGH || load == THRES_LOW
  {
    if load == THRES_HIGH {
      assert Reported(load, 0) != Reported(load, 1);
    } else if load == THRES_LOW {
      assert Reported(load, 0) != Reported(load, 2);
    }
  }
}
