/** What becomes of negotiated PIDs at a border router: the negotiation keeps them distinct, but
    the router's table is keyed by C strings, and small numbers in network order start with NUL. */
module WireKeys {
  import opened LinkTable
  import opened Negotiation
  import opened Network
  import opened PidChain
  import opened Words
  import PidStack
  import Distinctness
  import Resolver

  /** Every PID a sponsor settles on, whatever it shifted it past, is written to the wire with a
      leading NUL, so all negotiated PIDs have the same, empty, table key. */
  lemma {:induction false} NegotiatedPidsShareOneKey(pids: seq<uint32>, taken: seq<uint32>, step: nat, i: nat)
    requires Distinctness.Small(pids) && |pids| <= 20 && |taken| < 256 && 1 <= step <= 101
    requires Resolver.Bounded(pids, taken, step) && i < |pids|
    ensures PidStack.Key(PidStack.Be32(Resolver.Resolve(pids, taken, step)[i])) == []
  {
    hide Resolver.Resolve;
    Distinctness.ResolveLow(pids, taken, step, i);
    PidStack.LowPidsShareOneKey(Resolver.Resolve(pids, taken, step)[i]);
  }

  /** In every reachable state of every network, a manager's list for a neighbour is the one it started
      with, or all its PIDs have the empty key. */
  lemma {:induction false} ReachedListsShareOneKey(net: Net, table: seq<Row>, events: seq<Event>, h: Nid, eid: Nid)
    requires Initial(net, table) && ValidRun(net, events)
    requires h in Run(net, events).rms && Knows(Run(net, events).rms[h].chain, eid)
    ensures var pids := PidsFor(Run(net, events).rms[h], eid);
      || Distinctness.FirstList(net, h, eid, pids)
      || forall i :: 0 <= i < |pids| ==> PidStack.Key(PidStack.Be32(pids[i])) == []
  {
    hide Run, ValidRun, Initial, PidStack.Key;
    Distinctness.ListsGetShort(net, table, events, h, eid);
    var pids := PidsFor(Run(net, events).rms[h], eid);
    if Distinctness.ThreeBytes(pids) {
      forall i | 0 <= i < |pids|
        ensures PidStack.Key(PidStack.Be32(pids[i])) == []
      {
        PidStack.LowPidsShareOneKey(pids[i]);
      }
    }
  }

  /** The router after announcements (PID, far address) from the inside. */
  function Told(r: PidStack.Router, own: PidStack.Word4, told: seq<(uint32, PidStack.Word4)>): PidStack.Router {
    if told == [] then r
    else
      var last := told[|told| - 1];
      PidStack.Announced(Told(r, own, told[..|told| - 1]), PidStack.Be32(last.0), own, last.1)
  }

  /** So a router that has been told about any number of negotiated PIDs sends the packets of all their
      paths to the address of the last one. */
  lemma {:induction false} RouterMergesNegotiatedPids(r: PidStack.Router, own: PidStack.Word4,
                                                      told: seq<(uint32, PidStack.Word4)>, i: nat)
    requires own == PidStack.OwnIp(r, 1) && i < |told|
    requires forall k :: 0 <= k < |told| ==> told[k].0 < 0x100_0000
    ensures PidStack.FindIp(Told(r, own, told).pidIp, PidStack.Key(PidStack.Be32(told[i].0))) == told[|told| - 1].1
  {
    OwnKept(r, own, told[..|told| - 1]);
    PidStack.LowPidsShareOneKey(told[i].0);
    PidStack.LowPidsShareOneKey(told[|told| - 1].0);
  }

  lemma {:induction false} OwnKept(r: PidStack.Router, own: PidStack.Word4, told: seq<(uint32, PidStack.Word4)>)
    ensures PidStack.OwnIp(Told(r, own, told), 1) == PidStack.OwnIp(r, 1)
  {
    if told != [] {
      OwnKept(r, own, told[..|told| - 1]);
    }
  }
}
