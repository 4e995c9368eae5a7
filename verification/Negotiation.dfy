/** One resource manager in the PID negotiation: what it keeps and how it reacts to each of the
    four messages change_request, pid_a, pid_b and ack (RM/main.c). */
module Negotiation {
  import opened Words
  import opened LinkTable
  import opened PidChain
  import Resolver

  const PENDING_WIDTH: nat := 100

  datatype Msg =
    | ChangeRequest
    | PidA(time: uint32, pids: seq<uint32>)
    | PidB(time: uint32, pids: seq<uint32>)
    | Ack

  /** `pending` and `pendingTime` are the proposal buffers: one row per neighbour number for the
      PIDs, but a single cell for the timer. */
  datatype RmState = RmState(host: Nid, chain: seq<Neighbour>, table: seq<Row>,
                             pending: seq<seq<uint32>>, pendingTime: uint32)

  /** A PID announced to a border router: lifetime, inner and outer address, and where it is sent. */
  datatype Announcement = Announcement(timeToLive: uint32, ipInside: uint32, pid: uint32, ipOutside: uint32, to: uint32)

  datatype Reaction = Reaction(rm: RmState, replies: seq<Msg>, announced: seq<Announcement>)

  /** The table is counted in eight bits, the buffers have fixed sizes, and the chain indexes the table. */
  ghost predicate WellFormed(rm: RmState) {
    && |rm.table| < 256
    && Groups(rm.chain, rm.table, rm.host)
    && |rm.chain| <= MAX_NEIGHBOURS
    && (forall i :: 0 <= i < |rm.chain| ==> |rm.chain[i].pids| <= MAX_PID_NUMBER)
    && |rm.pending| == MAX_NEIGHBOURS
    && (forall i :: 0 <= i < MAX_NEIGHBOURS ==> |rm.pending[i]| == PENDING_WIDTH)
  }

  // ---------- what a manager holds for one neighbour ----------

  function PidsFor(rm: RmState, eid: Nid): seq<uint32>
    requires Knows(rm.chain, eid)
  {
    rm.chain[Find(rm.chain, eid)].pids
  }

  function TimeFor(rm: RmState, eid: Nid): uint32
    requires Knows(rm.chain, eid)
  {
    rm.chain[Find(rm.chain, eid)].time
  }

  /** The proposal buffered for the neighbour. */
  function PendingFor(rm: RmState, eid: Nid): seq<uint32>
    requires Knows(rm.chain, eid) && Find(rm.chain, eid) < |rm.pending|
    requires |PidsFor(rm, eid)| <= |rm.pending[Find(rm.chain, eid)]|
  {
    rm.pending[Find(rm.chain, eid)][..|PidsFor(rm, eid)|]
  }

  // ---------- the pieces of the handlers ----------

  /** The next list: every PID plus one random number, modulo 100, in 32-bit arithmetic. */
  function Propose(pids: seq<uint32>, number: nat): (r: seq<uint32>)
    ensures |r| == |pids|
  {
    seq(|pids|, i requires 0 <= i < |pids| => Add32(pids[i], number) % 100)
  }

  function ProposeTime(time: uint32, number: nat): uint32 {
    Add32(time, number) % 100
  }

  /** The PIDs of the rows the table loops reach. */
  function TakenBy(table: seq<Row>): (r: seq<uint32>)
    ensures |r| == RowsSeen(table)
  {
    seq(RowsSeen(table), i requires 0 <= i < RowsSeen(table) => table[i].pid)
  }

  /** Some PID of the list is in use by some neighbour, the proposer included. */
  predicate InUse(pids: seq<uint32>, chain: seq<Neighbour>) {
    exists k :: 0 <= k < |chain| && Resolver.Conflict(pids, chain[k].pids)
  }

  function Install(rm: RmState, k: nat, time: uint32, pids: seq<uint32>): RmState
    requires k < |rm.chain| && Count(rm.table, rm.host, rm.chain[k].eid, RowsSeen(rm.table)) <= |pids|
  {
    rm.(chain := rm.chain[k := rm.chain[k].(time := time, pids := pids)],
        table := WriteBack(rm.table, rm.host, rm.chain[k].eid, pids))
  }

  /** One announcement of `row` for every row that starts at `host`, in table order. */
  function AnnounceRow(row: Row, table: seq<Row>, host: Nid, ttl: uint32): seq<Announcement> {
    if table == [] then []
    else
      var last := table[|table| - 1];
      AnnounceRow(row, table[..|table| - 1], host, ttl) +
      if last.eid1 == host then [Announcement(ttl, row.ip1, row.pid, row.ip2, last.ip1)] else []
  }

  const PID_CHANGE_PERIOD: uint32 := 1

  /** The announcements for all rows that lead to `eid` among the first `i`, in table order. */
  function AnnounceUpTo(table: seq<Row>, host: Nid, eid: Nid, i: nat): seq<Announcement>
    requires i <= |table|
  {
    if i == 0 then []
    else
      AnnounceUpTo(table, host, eid, i - 1) +
      if Leads(table[i - 1], host, eid) then AnnounceRow(table[i - 1], table, host, PID_CHANGE_PERIOD * 2) else []
  }

  function AnnounceAll(table: seq<Row>, host: Nid, eid: Nid): seq<Announcement> {
    AnnounceUpTo(table, host, eid, |table|)
  }

  // ---------- the four handlers ----------

  function OnChangeRequest(rm: RmState, from: Nid, number: nat): Reaction {
    if !Knows(rm.chain, from) then Reaction(rm, [], [])
    else Reaction(rm, [PidA(ProposeTime(TimeFor(rm, from), number), Propose(PidsFor(rm, from), number))], [])
  }

  /** The sponsor reads as many PIDs as it knows links, resolves conflicts with its table, keeps the
      result as the pending proposal and sends it back. */
  ghost function OnPidA(rm: RmState, from: Nid, time: uint32, pids: seq<uint32>, number: nat): Reaction
    requires Knows(rm.chain, from) ==> Storable(rm, Find(rm.chain, from), pids, number)
  {
    if !Knows(rm.chain, from) then Reaction(rm, [], [])
    else
      var k := Find(rm.chain, from);
      var n := |rm.chain[k].pids|;
      var agreed := Resolver.Resolve(pids[..n], TakenBy(rm.table), number);
      Reaction(rm.(pending := rm.pending[k := agreed + rm.pending[k][n..]], pendingTime := time),
               [PidB(time, agreed)], [])
  }

  /** The responder installs the list if none of its PIDs is in use, and otherwise makes a new proposal. */
  function OnPidB(rm: RmState, from: Nid, time: uint32, pids: seq<uint32>, number: nat): Reaction
    requires Knows(rm.chain, from) ==> |PidsFor(rm, from)| <= |pids|
    requires Knows(rm.chain, from) ==> Count(rm.table, rm.host, from, RowsSeen(rm.table)) <= |PidsFor(rm, from)|
  {
    if !Knows(rm.chain, from) then Reaction(rm, [], [])
    else
      var k := Find(rm.chain, from);
      var got := pids[..|rm.chain[k].pids|];
      if InUse(got, rm.chain) then
        Reaction(rm, [PidA(ProposeTime(time, number), Propose(got, number))], [])
      else
        var rm' := Install(rm, k, time, got);
        Reaction(rm', [Ack], AnnounceAll(rm'.table, rm.host, from))
  }

  /** The sponsor installs whatever the buffers hold when the ack arrives. */
  function OnAck(rm: RmState, from: Nid): Reaction
    requires Knows(rm.chain, from) ==>
      && Find(rm.chain, from) < |rm.pending|
      && |PidsFor(rm, from)| <= |rm.pending[Find(rm.chain, from)]|
      && Count(rm.table, rm.host, from, RowsSeen(rm.table)) <= |PidsFor(rm, from)|
  {
    if !Knows(rm.chain, from) then Reaction(rm, [], [])
    else
      var rm' := Install(rm, Find(rm.chain, from), rm.pendingTime, PendingFor(rm, from));
      Reaction(rm', [], AnnounceAll(rm'.table, rm.host, from))
  }

  /** A list message must carry at least as many PIDs as the receiver will read. */
  predicate Receivable(rm: RmState, from: Nid, msg: Msg) {
    (msg.PidA? || msg.PidB?) && Knows(rm.chain, from) ==> |PidsFor(rm, from)| <= |msg.pids|
  }

  /** The random number drawn by the handler of the message. */
  predicate LegalNumber(msg: Msg, number: nat) {
    if msg.ChangeRequest? then number <= 100 else 1 <= number <= 101
  }

  ghost function React(rm: RmState, from: Nid, msg: Msg, number: nat): Reaction
    requires WellFormed(rm) && Receivable(rm, from, msg) && LegalNumber(msg, number)
  {
    if Knows(rm.chain, from) then
      CountFits(rm, Find(rm.chain, from));
      Dispatch(rm, from, msg, number)
    else Reaction(rm, [], [])
  }

  ghost function Dispatch(rm: RmState, from: Nid, msg: Msg, number: nat): Reaction
    requires WellFormed(rm) && Receivable(rm, from, msg) && LegalNumber(msg, number)
    requires Knows(rm.chain, from) && Count(rm.table, rm.host, from, RowsSeen(rm.table)) <= |PidsFor(rm, from)|
  {
    match msg
    case ChangeRequest => OnChangeRequest(rm, from, number)
    case PidA(time, pids) =>
      AnyProposalStorable(rm, Find(rm.chain, from), pids, number);
      OnPidA(rm, from, time, pids, number)
    case PidB(time, pids) => OnPidB(rm, from, time, pids, number)
    case Ack => OnAck(rm, from)
  }

  // ---------- why the handlers are defined ----------

  lemma Fits(rm: RmState, k: nat)
    requires WellFormed(rm) && k < |rm.chain|
    ensures |rm.chain[k].pids| * RowsSeen(rm.table) < 0x400_0000
    ensures k < |rm.pending| && |rm.chain[k].pids| <= |rm.pending[k]|
  {
    MulMono(|rm.chain[k].pids|, 20, RowsSeen(rm.table), 255);
  }

  lemma CountFits(rm: RmState, k: nat)
    requires WellFormed(rm) && k < |rm.chain|
    ensures Count(rm.table, rm.host, rm.chain[k].eid, RowsSeen(rm.table)) == |rm.chain[k].pids|
  {
    assert rm.table[..|rm.table|] == rm.table;
  }

  // ---------- what the handlers rely on ----------

  /** The list can replace that of neighbour `k` and be written back in full. */
  ghost predicate Installable(rm: RmState, k: nat, pids: seq<uint32>) {
    && k < |rm.chain| && pids != [] && |pids| == |rm.chain[k].pids| && |rm.table| < 256
    && Count(rm.table, rm.host, rm.chain[k].eid, RowsSeen(rm.table)) <= |pids|
    && PidsOf(WriteBack(rm.table, rm.host, rm.chain[k].eid, pids), rm.host, rm.chain[k].eid) == pids
  }

  lemma AnyListInstallable(rm: RmState, k: nat, pids: seq<uint32>)
    requires WellFormed(rm) && k < |rm.chain| && |pids| == |rm.chain[k].pids|
    ensures Installable(rm, k, pids)
  {
    CountFits(rm, k);
    WriteBackGroups(rm.chain, rm.table, rm.host, k, 0, pids);
    var chain' := rm.chain[k := rm.chain[k].(time := 0, pids := pids)];
    assert chain'[k].pids == pids;
  }

  /** The buffer of neighbour `k` is its own and large enough, and the proposal can be resolved. */
  ghost predicate Storable(rm: RmState, k: nat, pids: seq<uint32>, number: nat) {
    && k < |rm.chain| && k < |rm.pending| && rm.chain[k].id == k
    && |rm.chain[k].pids| <= |pids| && |rm.chain[k].pids| <= |rm.pending[k]|
    && Resolver.Bounded(pids[..|rm.chain[k].pids|], TakenBy(rm.table), number)
  }

  lemma AnyProposalStorable(rm: RmState, k: nat, pids: seq<uint32>, number: nat)
    requires WellFormed(rm) && 1 <= number <= 101 && k < |rm.chain| && |rm.chain[k].pids| <= |pids|
    ensures Storable(rm, k, pids, number)
  {
    Fits(rm, k);
  }

  // ---------- what every reaction keeps ----------

  lemma FindSame(chain: seq<Neighbour>, chain': seq<Neighbour>, eid: Nid)
    requires |chain| == |chain'| && forall i :: 0 <= i < |chain| ==> chain[i].eid == chain'[i].eid
    ensures Find(chain, eid) == Find(chain', eid)
  {
    var a, b := Find(chain, eid), Find(chain', eid);
    assert a < |chain| ==> chain'[a].eid == eid;
    assert b < |chain| ==> chain[b].eid == eid;
  }

  lemma InstallKeeps(rm: RmState, k: nat, time: uint32, pids: seq<uint32>)
    requires WellFormed(rm) && k < |rm.chain| && |pids| == |rm.chain[k].pids|
    requires Count(rm.table, rm.host, rm.chain[k].eid, RowsSeen(rm.table)) <= |pids|
    ensures WellFormed(Install(rm, k, time, pids))
    ensures forall eid :: Find(Install(rm, k, time, pids).chain, eid) == Find(rm.chain, eid)
  {
    WriteBackGroups(rm.chain, rm.table, rm.host, k, time, pids);
    forall eid
      ensures Find(Install(rm, k, time, pids).chain, eid) == Find(rm.chain, eid)
    {
      FindSame(rm.chain, Install(rm, k, time, pids).chain, eid);
    }
  }

  /** `rm'` holds for `other` what `rm` held. */
  ghost predicate SameFor(rm: RmState, rm': RmState, other: Nid)
    requires WellFormed(rm) && WellFormed(rm')
    requires Find(rm'.chain, other) == Find(rm.chain, other) && |rm'.chain| == |rm.chain|
  {
    Knows(rm.chain, other) ==>
      && PidsFor(rm', other) == PidsFor(rm, other)
      && TimeFor(rm', other) == TimeFor(rm, other)
      && (Fits(rm, Find(rm.chain, other)); PendingFor(rm', other) == PendingFor(rm, other))
  }

  lemma InstallFrame(rm: RmState, from: Nid, time: uint32, pids: seq<uint32>, other: Nid)
    requires WellFormed(rm) && Knows(rm.chain, from) && |pids| == |PidsFor(rm, from)|
    requires Count(rm.table, rm.host, from, RowsSeen(rm.table)) <= |pids|
    ensures var rm' := Install(rm, Find(rm.chain, from), time, pids);
      && WellFormed(rm')
      && Find(rm'.chain, other) == Find(rm.chain, other)
      && (Knows(rm.chain, other) ==> |PidsFor(rm', other)| == |PidsFor(rm, other)|)
      && (other != from ==> SameFor(rm, rm', other))
  {
    InstallKeeps(rm, Find(rm.chain, from), time, pids);
  }

  /** A reaction to one neighbour keeps the manager well-formed, keeps the number of links to every
      neighbour, and does not touch the list, the timer or the proposal of any other neighbour. */
  lemma ReactionFrame(rm: RmState, from: Nid, msg: Msg, number: nat, other: Nid)
    requires WellFormed(rm) && Receivable(rm, from, msg) && LegalNumber(msg, number)
    ensures var rm' := React(rm, from, msg, number).rm;
      && WellFormed(rm')
      && rm'.host == rm.host
      && Find(rm'.chain, other) == Find(rm.chain, other) && |rm'.chain| == |rm.chain|
      && (Knows(rm.chain, other) ==> |PidsFor(rm', other)| == |PidsFor(rm, other)|)
      && (other != from ==> SameFor(rm, rm', other))
  {
    if Knows(rm.chain, from) {
      var k := Find(rm.chain, from);
      CountFits(rm, k);
      Fits(rm, k);
      if msg.PidB? {
        InstallFrame(rm, from, msg.time, msg.pids[..|rm.chain[k].pids|], other);
      } else if msg.Ack? {
        InstallFrame(rm, from, rm.pendingTime, PendingFor(rm, from), other);
      } else if msg.PidA? {
        AnyProposalStorable(rm, k, msg.pids, number);
      }
    }
  }

  // ---------- what an install announces ----------

  /** The rows that start at `host` are the local border routers. */
  function Routers(table: seq<Row>, host: Nid): seq<uint32> {
    if table == [] then []
    else
      var last := table[|table| - 1];
      Routers(table[..|table| - 1], host) + if last.eid1 == host then [last.ip1] else []
  }

  lemma {:induction false} AnnounceRowAt(row: Row, table: seq<Row>, host: Nid, ttl: uint32, q: nat)
    requires q < |Routers(table, host)|
    ensures |AnnounceRow(row, table, host, ttl)| == |Routers(table, host)|
    ensures AnnounceRow(row, table, host, ttl)[q] ==
            Announcement(ttl, row.ip1, row.pid, row.ip2, Routers(table, host)[q])
  {
    var front := table[..|table| - 1];
    if q < |Routers(front, host)| {
      AnnounceRowAt(row, front, host, ttl, q);
    } else if |Routers(front, host)| > 0 {
      AnnounceRowAt(row, front, host, ttl, 0);
    } else {
      NoRouters(row, front, host, ttl);
    }
  }

  lemma {:induction false} NoRouters(row: Row, table: seq<Row>, host: Nid, ttl: uint32)
    requires Routers(table, host) == []
    ensures AnnounceRow(row, table, host, ttl) == []
  {
    if table != [] {
      NoRouters(row, table[..|table| - 1], host, ttl);
    }
  }

  /** With h border routers, announcement number c*h+q tells router q the PID of the neighbour's
      c-th row, its two addresses and twice the change period as its lifetime: every row of the
      neighbour is announced exactly once to every border router. */
  lemma {:induction false} AnnouncedOnce(table: seq<Row>, host: Nid, eid: Nid, i: nat, c: nat, q: nat)
    requires i <= |table|
    requires c < Count(table, host, eid, i) && q < |Routers(table, host)|
    ensures |AnnounceUpTo(table, host, eid, i)| == Count(table, host, eid, i) * |Routers(table, host)|
    ensures c * |Routers(table, host)| + q < |AnnounceUpTo(table, host, eid, i)|
    ensures var a := AnnounceUpTo(table, host, eid, i)[c * |Routers(table, host)| + q];
            var row := RowsOf(table[..i], host, eid)[c];
            && a == Announcement(PID_CHANGE_PERIOD * 2, row.ip1, row.pid, row.ip2, Routers(table, host)[q])
            && row.pid == PidsOf(table[..i], host, eid)[c]
  {
    var h := |Routers(table, host)|;
    assert table[..i][..i - 1] == table[..i - 1];
    var n := Count(table, host, eid, i - 1);
    AnnounceLength(table, host, eid, i - 1);
    AnnounceLength(table, host, eid, i);
    OneMore(c, h);
    if c < n {
      AnnouncedOnce(table, host, eid, i - 1, c, q);
    } else {
      AnnounceRowAt(table[i - 1], table, host, PID_CHANGE_PERIOD * 2, q);
    }
  }

  lemma OneMore(n: nat, h: nat)
    ensures (n + 1) * h == n * h + h
  {
  }

  lemma {:induction false} AnnounceLength(table: seq<Row>, host: Nid, eid: Nid, i: nat)
    requires i <= |table|
    ensures |AnnounceUpTo(table, host, eid, i)| == Count(table, host, eid, i) * |Routers(table, host)|
  {
    if i > 0 {
      AnnounceLength(table, host, eid, i - 1);
      assert table[..i][..i - 1] == table[..i - 1];
      var h := |Routers(table, host)|;
      OneMore(Count(table, host, eid, i - 1), h);
      if h > 0 {
        AnnounceRowAt(table[i - 1], table, host, PID_CHANGE_PERIOD * 2, 0);
      } else {
        NoRouters(table[i - 1], table, host, PID_CHANGE_PERIOD * 2);
      }
    }
  }

  // ---------- what the eight-bit row counters miss ----------

  /** The rows that the loops over the table reach. */
  function Seen(table: seq<Row>): (r: seq<Row>)
    ensures |r| == RowsSeen(table)
  {
    table[..RowsSeen(table)]
  }

  /** However many rows the table has, what has been written back is what announcing compares with. */
  lemma WrittenIsAnnounceable(table: seq<Row>, host: Nid, eid: Nid, pids: seq<uint32>)
    requires Count(table, host, eid, RowsSeen(table)) <= |pids|
    ensures PidsOf(Seen(WriteBack(table, host, eid, pids)), host, eid) <= pids
  {
    WrittenPrefix(table, host, eid, pids, RowsSeen(table));
  }

  lemma {:induction false} RoutersGrow(table: seq<Row>, host: Nid, m: nat)
    requires m <= |table|
    ensures |Routers(table[..m], host)| <= |Routers(table, host)|
    ensures (forall i :: m <= i < |table| ==> table[i].eid1 != host) <==>
            |Routers(table[..m], host)| == |Routers(table, host)|
    ensures forall row, ttl :: (forall i :: m <= i < |table| ==> table[i].eid1 != host) ==>
      AnnounceRow(row, table[..m], host, ttl) == AnnounceRow(row, table, host, ttl)
    decreases |table|
  {
    if m == |table| {
      assert table[..m] == table;
    } else {
      var front := table[..|table| - 1];
      RoutersGrow(front, host, m);
      assert front[..m] == table[..m];
      assert forall i :: m <= i < |front| ==> front[i] == table[i];
    }
  }

  lemma {:induction false} AnnounceSame(table: seq<Row>, host: Nid, eid: Nid, m: nat, i: nat)
    requires i <= m <= |table|
    requires forall row, ttl :: AnnounceRow(row, table[..m], host, ttl) == AnnounceRow(row, table, host, ttl)
    ensures AnnounceUpTo(table[..m], host, eid, i) == AnnounceUpTo(table, host, eid, i)
  {
    if i > 0 {
      AnnounceSame(table, host, eid, m, i - 1);
    }
  }

  lemma {:induction false} AnnounceRest(table: seq<Row>, host: Nid, eid: Nid, m: nat, i: nat)
    requires m <= i <= |table| && forall k :: m <= k < |table| ==> table[k].eid1 != host
    ensures AnnounceUpTo(table, host, eid, i) == AnnounceUpTo(table, host, eid, m)
    decreases i
  {
    if i > m {
      AnnounceRest(table, host, eid, m, i - 1);
    }
  }

  /** The loops announce all rows of a neighbour to all border routers if and only if no row of the
      local domain lies beyond the first `|table| % 256`: such a row is a border router that is told
      nothing, and perhaps a path that nobody is told about. */
  lemma AnnounceReachIff(table: seq<Row>, host: Nid, eid: Nid)
    requires PidsOf(table, host, eid) != []
    ensures AnnounceAll(Seen(table), host, eid) == AnnounceAll(table, host, eid) <==>
            forall i :: RowsSeen(table) <= i < |table| ==> table[i].eid1 != host
  {
    hide AnnounceUpTo, AnnounceRow, Routers, PidsOf;
    var m := RowsSeen(table);
    RoutersGrow(table, host, m);
    assert Seen(table) == table[..m] && table[..|table|] == table && Seen(table)[..m] == table[..m];
    if forall i :: m <= i < |table| ==> table[i].eid1 != host {
      AnnounceSame(table, host, eid, m, m);
      AnnounceRest(table, host, eid, m, |table|);
    } else {
      AnnounceLength(Seen(table), host, eid, m);
      AnnounceLength(table, host, eid, |table|);
      PrefixCount(table, host, eid, m);
      var c, h := |PidsOf(Seen(table), host, eid)|, |Routers(Seen(table), host)|;
      Fewer(c, h, |PidsOf(table, host, eid)|, |Routers(table, host)|);
    }
  }

  lemma Fewer(c: nat, h: nat, c': nat, h': nat)
    requires c <= c' && h < h' && c' > 0
    ensures c * h < c' * h'
  {
    MulMono(c, c', h, h);
    assert c' * h' == c' * h + c' * (h' - h);
    MulMono(1, c', 1, h' - h);
  }

  function AllPids(table: seq<Row>): (r: seq<uint32>)
    ensures |r| == |table| && forall i :: 0 <= i < |table| ==> r[i] == table[i].pid
  {
    seq(|table|, i requires 0 <= i < |table| => table[i].pid)
  }

  /** Every resolved list is clear of the whole table if and only if each PID beyond the first
      `|table| % 256` rows also occurs among those rows. */
  lemma ResolveReachIff(table: seq<Row>)
    ensures (forall pids, step :: Resolver.Bounded(pids, TakenBy(table), step) ==>
               !Resolver.Conflict(Resolver.Resolve(pids, TakenBy(table), step), AllPids(table))) <==>
            (forall i :: RowsSeen(table) <= i < |table| ==> table[i].pid in TakenBy(table))
  {
    var taken, all := TakenBy(table), AllPids(table);
    if i :| RowsSeen(table) <= i < |table| && table[i].pid !in taken {
      var pids := [table[i].pid];
      assert Resolver.Bounded(pids, taken, 1);
      assert Resolver.Resolve(pids, taken, 1) == pids;
      assert pids[0] == all[i];
    } else {
      forall pids, step | Resolver.Bounded(pids, taken, step)
        ensures !Resolver.Conflict(Resolver.Resolve(pids, taken, step), all)
      {
        var r := Resolver.Resolve(pids, taken, step);
        forall j, i | 0 <= j < |r| && 0 <= i < |all|
          ensures r[j] != all[i]
        {
          assert all[i] in taken by {
            if i < |taken| {
              assert taken[i] == table[i].pid;
            }
          }
          var q :| 0 <= q < |taken| && taken[q] == all[i];
          assert r[j] != taken[q];
        }
      }
    }
  }
}
