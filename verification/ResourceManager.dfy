/** The resource manager as it runs: a linked chain of neighbour nodes, a link table and proposal
    buffers that are overwritten in place (RM/main.c). Each method is tied to the reaction of the
    value model. */
module ResourceManager {
  import opened Words
  import opened LinkTable
  import opened PidChain
  import opened Negotiation
  import Network
  import Resolver

  /** `struct pid_info_table`. */
  class ChainNode {
    var item: Neighbour
    var next: ChainNode?

    constructor (item: Neighbour)
      ensures this.item == item && next == null
    {
      this.item := item;
      this.next := null;
    }
  }

  class Manager {
    const host: Nid
    const table: array<Row>
    const pending: array2<uint32>
    var pendingTime: uint32
    var head: ChainNode?
    var announced: seq<Announcement>  // every announcement sent so far
    ghost var nodes: seq<ChainNode>   // the nodes reached from `head`, in order

    ghost predicate Linked()
      reads this, nodes
    {
      && head == NodeAt(0)
      && (forall i {:trigger nodes[i].next} :: 0 <= i < |nodes| ==> nodes[i].next == NodeAt(i + 1))
      && (forall i, j :: 0 <= i < j < |nodes| ==> nodes[i] != nodes[j])
    }

    ghost function NodeAt(i: nat): ChainNode?
      reads this
    {
      if i < |nodes| then nodes[i] else null
    }

    ghost function Chain(): (c: seq<Neighbour>)
      reads this, nodes
      ensures |c| == |nodes|
      ensures forall i :: 0 <= i < |nodes| ==> c[i] == nodes[i].item
    {
      seq(|nodes|, i requires 0 <= i < |nodes| reads this, nodes => nodes[i].item)
    }

    ghost function Buffer(id: nat): (r: seq<uint32>)
      requires id < pending.Length0
      reads pending
      ensures |r| == pending.Length1
      ensures forall j :: 0 <= j < pending.Length1 ==> r[j] == pending[id, j]
    {
      seq(pending.Length1, j requires 0 <= j < pending.Length1 reads pending => pending[id, j])
    }

    ghost function Buffers(): (r: seq<seq<uint32>>)
      reads pending
      ensures |r| == pending.Length0
      ensures forall i :: 0 <= i < pending.Length0 ==> r[i] == Buffer(i)
    {
      seq(pending.Length0, i requires 0 <= i < pending.Length0 reads pending => Buffer(i))
    }

    ghost function View(): RmState
      reads this, nodes, table, pending
    {
      RmState(host, Chain(), table[..], Buffers(), pendingTime)
    }

    ghost predicate Valid()
      reads this, nodes, table, pending
    {
      Linked() && WellFormed(View())
    }

    // ---------- start-up ----------

    /** Align the table to the local domain, then build the chain from it. */
    constructor (host: Nid, table: array<Row>, pending: array2<uint32>)
      requires pending.Length0 == MAX_NEIGHBOURS && pending.Length1 == PENDING_WIDTH
      requires Network.FitsBuffers(table[..], host)
      modifies table
      ensures Valid() && fresh(nodes)
      ensures this.host == host && this.table == table && this.pending == pending
      ensures View().table == Align(old(table[..]), host)
      ensures View().chain == Build(Align(old(table[..]), host), host)
      ensures announced == []
    {
      this.host := host;
      this.table := table;
      this.pending := pending;
      head := null;
      nodes := [];
      announced := [];
      new;
      AlignConfigure(table, host);
      ReadConfiguration();
      LoadedWellFormed(View());
    }

    lemma LoadedWellFormed(rm: RmState)
      requires |rm.table| < 256 && rm.chain == Build(rm.table, rm.host) && |rm.chain| <= MAX_NEIGHBOURS
      requires forall eid :: |PidsOf(rm.table, rm.host, eid)| <= MAX_PID_NUMBER
      requires |rm.pending| == MAX_NEIGHBOURS
      requires forall i :: 0 <= i < MAX_NEIGHBOURS ==> |rm.pending[i]| == PENDING_WIDTH
      ensures WellFormed(rm)
    {
      BuildGroups(rm.table, rm.host);
    }

    method ReadConfiguration()
      requires nodes == [] && head == null
      modifies this`head, this`nodes
      ensures Linked() && fresh(nodes)
      ensures Chain() == Build(table[..], host)
    {
      var last: ChainNode? := null;
      var counter := 0;
      ghost var rows := table[..];
      assert ReadUpTo(rows[..0], last, counter);
      hide ReadUpTo, Build, Linked;
      var i := 0;
      while i < table.Length
        invariant 0 <= i <= table.Length && rows == table[..]
        invariant ReadUpTo(rows[..i], last, counter)
        invariant fresh(nodes)
      {
        last, counter := ReadRow(table[i], last, counter, rows, i);
        i := i + 1;
      }
      assert rows[..i] == rows;
    }

    /** The linked nodes are the chain of the rows read so far. */
    ghost predicate ReadUpTo(rows: seq<Row>, last: ChainNode?, counter: nat)
      reads this, nodes
    {
      && Linked() && counter == |nodes| && (nodes != [] ==> last == nodes[|nodes| - 1])
      && Chain() == Build(rows, host)
    }

    method ReadRow(item: Row, last: ChainNode?, counter: nat, ghost rows: seq<Row>, ghost i: nat)
      returns (last': ChainNode?, counter': nat)
      requires i < |rows| && item == rows[i] && ReadUpTo(rows[..i], last, counter)
      modifies this`head, this`nodes, nodes
      ensures ReadUpTo(rows[..i + 1], last', counter') && fresh((set n | n in nodes) - old(set n | n in nodes))
    {
      BuildStep(rows, host, i);
      last', counter' := last, counter;
      if CompareNid(host, item.eid1) == 0 {
        last', counter' := AddRow(item, last, counter);
      }
    }

    lemma BuildStep(rows: seq<Row>, host: Nid, i: nat)
      requires i < |rows|
      ensures Build(rows[..i + 1], host) ==
              if CompareNid(host, rows[i].eid1) == 0 then AddLink(Build(rows[..i], host), rows[i])
              else Build(rows[..i], host)
    {
      assert rows[..i + 1][..i] == rows[..i];
      CompareTotalOrder(host, rows[i].eid1, host);
    }

    /** One row of the local domain: a new PID for a known neighbour, or a new neighbour. */
    method AddRow(item: Row, last: ChainNode?, counter: nat) returns (last': ChainNode?, counter': nat)
      requires Linked() && counter == |nodes|
      requires nodes != [] ==> last == nodes[|nodes| - 1]
      modifies this`head, this`nodes, nodes
      ensures Linked() && counter' == |nodes|
      ensures nodes != [] ==> last' == nodes[|nodes| - 1]
      ensures old(nodes) <= nodes && forall i :: |old(nodes)| <= i < |nodes| ==> fresh(nodes[i])
      ensures Chain() == AddLink(old(Chain()), item)
    {
      last', counter' := last, counter;
      var node := Search(item.eid2);
      if node != null {
        AddPid(node, item.pid, Find(Chain(), item.eid2));
      } else {
        var p := new ChainNode(Neighbour(item.eid2, counter, INITIAL_TIME, [item.pid]));
        Append(last, p);
        last' := p;
        counter' := counter + 1;
      }
    }

    method AddPid(node: ChainNode, pid: uint32, ghost k: nat)
      requires Linked() && k < |nodes| && node == nodes[k]
      modifies node`item
      ensures Linked()
      ensures Chain() == old(Chain())[k := old(Chain())[k].(pids := old(Chain())[k].pids + [pid])]
    {
      node.item := node.item.(pids := node.item.pids + [pid]);
    }

    method Append(last: ChainNode?, p: ChainNode)
      requires Linked() && p !in nodes && p.next == null
      requires nodes != [] ==> last == nodes[|nodes| - 1]
      modifies this`head, this`nodes, nodes
      ensures Linked() && nodes == old(nodes) + [p]
      ensures Chain() == old(Chain()) + [p.item]
    {
      if head == null {
        head := p;
      } else {
        last.next := p;
      }
      nodes := nodes + [p];
    }

    // ---------- search ----------

    /** The node of a neighbour, or null. */
    method Search(eid: Nid) returns (node: ChainNode?)
      requires Linked()
      ensures node == NodeAt(Find(Chain(), eid))
    {
      var chain := head;
      if chain == null {
        return null;
      }
      ghost var k := 0;
      while chain.next != null && chain.item.eid != eid
        invariant k < |nodes| && chain == nodes[k]
        invariant forall i :: 0 <= i < k ==> nodes[i].item.eid != eid
        decreases |nodes| - k
      {
        chain := chain.next;
        k := k + 1;
      }
      ghost var f := Find(Chain(), eid);
      if chain.item.eid != eid {
        assert f == |nodes|;
        return null;
      }
      assert f == k;
      return chain;
    }

    // ---------- proposals ----------

    method ProposeList(pids: seq<uint32>, number: nat) returns (r: seq<uint32>)
      ensures r == Propose(pids, number)
    {
      r := [];
      var i := 0;
      while i < |pids|
        invariant 0 <= i <= |pids| && |r| == i
        invariant forall k :: 0 <= k < i ==> r[k] == Propose(pids, number)[k]
      {
        r := r + [Add32(pids[i], number) % 100];
        i := i + 1;
      }
    }

    /** Whether one of the first `n` buffered PIDs occurs in the rows the loop reaches. */
    method TableConflict(id: nat, n: nat) returns (different: bool)
      requires id < pending.Length0 && n <= pending.Length1
      ensures different <==> Resolver.Conflict(Buffer(id)[..n], TakenBy(table[..]))
    {
      different := false;
      var rows := table.Length % 256;
      ghost var pids, taken := Buffer(id)[..n], TakenBy(table[..]);
      var i := 0;
      while i < rows
        invariant 0 <= i <= rows
        invariant different <==> exists j, q :: 0 <= j < n && 0 <= q < i && pids[j] == taken[q]
      {
        var jj := 0;
        while jj < n
          invariant 0 <= jj <= n
          invariant different <==>
            || (exists j, q :: 0 <= j < n && 0 <= q < i && pids[j] == taken[q])
            || (exists j :: 0 <= j < jj && pids[j] == taken[i])
        {
          if pending[id, jj] - table[i].pid == 0 {
            assert pids[jj] == taken[i];
            different := true;
          }
          jj := jj + 1;
        }
        i := i + 1;
      }
    }

    /** Adds the step to the first `n` buffered PIDs, in wrapping arithmetic. */
    method ShiftBuffer(id: nat, n: nat, number: nat)
      requires id < pending.Length0 && n <= pending.Length1
      modifies pending
      ensures Buffers() == old(Buffers())[id := Resolver.Shift(old(Buffer(id))[..n], number) + old(Buffer(id))[n..]]
    {
      var jj := 0;
      while jj < n
        invariant 0 <= jj <= n
        invariant forall i, j :: 0 <= i < pending.Length0 && 0 <= j < pending.Length1 ==>
          pending[i, j] == if i == id && j < jj then Add32(old(pending[i, j]), number) else old(pending[i, j])
      {
        pending[id, jj] := Add32(pending[id, jj], number);
        jj := jj + 1;
      }
      assert Buffer(id) == Resolver.Shift(old(Buffer(id))[..n], number) + old(Buffer(id))[n..];
      forall i | 0 <= i < pending.Length0 && i != id
        ensures Buffer(i) == old(Buffer(i))
      {
      }
    }

    /** The conflict-resolution loop. It stops for every table and every list because each round
        uses up one of the finitely many pairs of a PID and a row. */
    method ResolveBuffer(id: nat, n: nat, number: nat)
      requires id < pending.Length0 && n <= pending.Length1
      requires Resolver.Bounded(Buffer(id)[..n], TakenBy(table[..]), number)
      modifies pending
      ensures Buffers() == old(Buffers())[id :=
        Resolver.Resolve(old(Buffer(id))[..n], TakenBy(table[..]), number) + old(Buffer(id))[n..]]
    {
      ghost var pids, taken, rest := Buffer(id)[..n], TakenBy(table[..]), Buffer(id)[n..];
      ghost var k := 0;
      Resolver.ShiftZero(pids);
      assert Buffer(id) == pids + rest;
      var different := true;
      while different
        invariant k <= |pids| * |taken|
        invariant Buffers() == old(Buffers())[id := Resolver.Shift(pids, k * number) + rest]
        invariant Resolver.BlockedBefore(pids, taken, number, k)
        invariant !different ==> !Resolver.Blocked(pids, taken, number, k)
        decreases |pids| * |taken| - k, different
      {
        assert Buffer(id) == Resolver.Shift(pids, k * number) + rest;
        assert Buffer(id)[..n] == Resolver.Shift(pids, k * number);
        different := TableConflict(id, n);
        if different {
          assert Buffer(id)[n..] == rest;
          ShiftBuffer(id, n, number);
          Resolver.ShiftAgain(pids, k, number);
          assert Resolver.Blocked(pids, taken, number, k);
          k := k + 1;
          Resolver.BlockedBound(pids, taken, number, k);
        }
      }
      Resolver.ResolveIsLeastShift(pids, taken, number, k);
    }

    /** Whether one of the PIDs belongs to some neighbour of the chain. */
    method ChainConflict(pids: seq<uint32>) returns (found: bool)
      requires Linked()
      ensures found <==> InUse(pids, Chain())
    {
      found := false;
      var node := head;
      ghost var k := 0;
      while node != null
        invariant k <= |nodes| && node == NodeAt(k)
        invariant found <==> InUse(pids, Chain()[..k])
        decreases |nodes| - k
      {
        var hit := ListConflict(pids, node.item.pids);
        found := found || hit;
        assert Chain()[..k + 1] == Chain()[..k] + [node.item];
        InUseSnoc(pids, Chain()[..k], node.item);
        node := node.next;
        k := k + 1;
      }
      assert Chain()[..k] == Chain();
    }

    lemma InUseSnoc(pids: seq<uint32>, chain: seq<Neighbour>, last: Neighbour)
      ensures InUse(pids, chain + [last]) <==> InUse(pids, chain) || Resolver.Conflict(pids, last.pids)
    {
      assert forall i :: 0 <= i < |chain| ==> (chain + [last])[i] == chain[i];
      assert (chain + [last])[|chain|] == last;
    }

    method ListConflict(pids: seq<uint32>, other: seq<uint32>) returns (found: bool)
      ensures found <==> Resolver.Conflict(pids, other)
    {
      found := false;
      var i := 0;
      while i < |other|
        invariant 0 <= i <= |other|
        invariant found <==> exists j, q :: 0 <= j < |pids| && 0 <= q < i && pids[j] == other[q]
      {
        var jj := 0;
        while jj < |pids|
          invariant 0 <= jj <= |pids|
          invariant found <==>
            || (exists j, q :: 0 <= j < |pids| && 0 <= q < i && pids[j] == other[q])
            || (exists j :: 0 <= j < jj && pids[j] == other[i])
        {
          if pids[jj] == other[i] {
            found := true;
          }
          jj := jj + 1;
        }
        i := i + 1;
      }
    }

    // ---------- installing a list ----------

    /** `update_nid_ip_nid_ip_nid`. */
    method UpdateTable(node: ChainNode)
      requires Count(table[..], host, node.item.eid, RowsSeen(table[..])) <= |node.item.pids|
      modifies table
      ensures table[..] == WriteBack(old(table[..]), host, node.item.eid, node.item.pids)
    {
      ghost var rows := table[..];
      ghost var m := RowsSeen(rows);
      var eid := node.item.eid;
      var number := table.Length % 256;
      var counter := 0;
      var i := 0;
      while i < number
        invariant 0 <= i <= number && counter == Count(rows, host, eid, i)
        invariant forall j :: 0 <= j < i ==> table[j] == WrittenRow(rows, host, eid, node.item.pids, m, j)
        invariant forall j :: i <= j < table.Length ==> table[j] == rows[j]
      {
        var item := table[i];
        CountStep(rows, host, eid, i, m);
        SameNid(item.eid1, host);
        SameNid(item.eid2, eid);
        if CompareNid(item.eid1, host) == 0 && CompareNid(item.eid2, eid) == 0 {
          table[i] := item.(pid := node.item.pids[counter]);
          counter := counter + 1;
        }
        i := i + 1;
      }
    }

    lemma SameNid(a: Nid, b: Nid)
      ensures CompareNid(a, b) == 0 <==> a == b
    {
      CompareTotalOrder(a, b, a);
    }

    /** `announce_ip_nid_ip`: tells every border router about every row of the neighbour. */
    method Announce(node: ChainNode)
      requires node.item.pids != [] && PidsOf(Seen(table[..]), host, node.item.eid) <= node.item.pids
      modifies this`announced
      ensures announced == old(announced) + AnnounceAll(Seen(table[..]), host, node.item.eid)
    {
      hide AnnounceRow, PidsOf, Leads, CompareNid;
      ghost var rows := Seen(table[..]);
      assert rows[..|rows|] == rows;
      var eid, pids := node.item.eid, node.item.pids;
      var number := table.Length % 256;
      var counter := 0;
      var i := 0;
      while i < number
        invariant 0 <= i <= number && rows == Seen(table[..]) && counter == Count(rows, host, eid, i) <= |pids|
        invariant announced == old(announced) + AnnounceUpTo(rows, host, eid, i)
      {
        var item := table[i];
        AnnounceStep(rows, host, eid, pids, i);
        if CompareNid(item.eid1, host) == 0 && CompareNid(item.eid2, eid) == 0 && pids[counter] == item.pid {
          counter := counter + 1;
          AnnounceToRouters(item);
          Regroup(old(announced), AnnounceUpTo(rows, host, eid, i),
                  AnnounceRow(item, rows, host, PID_CHANGE_PERIOD * 2));
          if counter >= |pids| {
            CountGrows(rows, host, eid, i + 1, |rows|);
            AnnouncedAll(rows, host, eid, i + 1, |rows|);
            return;
          }
        }
        i := i + 1;
      }
    }

    lemma Regroup(a: seq<Announcement>, b: seq<Announcement>, c: seq<Announcement>)
      ensures a + b + c == a + (b + c)
    {
    }

    lemma AnnounceStep(rows: seq<Row>, host: Nid, eid: Nid, pids: seq<uint32>, i: nat)
      requires i < |rows| && PidsOf(rows, host, eid) <= pids
      ensures CompareNid(rows[i].eid1, host) == 0 && CompareNid(rows[i].eid2, eid) == 0 <==> Leads(rows[i], host, eid)
      ensures Leads(rows[i], host, eid) ==>
        Count(rows, host, eid, i) < |pids| && pids[Count(rows, host, eid, i)] == rows[i].pid
      ensures Count(rows, host, eid, i + 1) == Count(rows, host, eid, i) + if Leads(rows[i], host, eid) then 1 else 0
      ensures AnnounceUpTo(rows, host, eid, i + 1) == AnnounceUpTo(rows, host, eid, i) +
              if Leads(rows[i], host, eid) then AnnounceRow(rows[i], rows, host, PID_CHANGE_PERIOD * 2) else []
    {
      CountStep(rows, host, eid, i, |rows|);
      SameNid(rows[i].eid1, host);
      SameNid(rows[i].eid2, eid);
      if Leads(rows[i], host, eid) {
        RowPid(rows, host, eid, i);
      }
    }

    /** Once all rows of the neighbour have been seen, nothing more is announced. */
    lemma {:induction false} AnnouncedAll(rows: seq<Row>, host: Nid, eid: Nid, i: nat, m: nat)
      requires i <= m <= |rows| && Count(rows, host, eid, i) == Count(rows, host, eid, m)
      ensures AnnounceUpTo(rows, host, eid, i) == AnnounceUpTo(rows, host, eid, m)
      decreases m
    {
      if i < m {
        CountStep(rows, host, eid, m - 1, m);
        if i < m - 1 {
          CountStep(rows, host, eid, i, m - 1);
          CountGrows(rows, host, eid, i, m - 1);
        }
        AnnouncedAll(rows, host, eid, i, m - 1);
      }
    }

    method AnnounceToRouters(item: Row)
      modifies this`announced
      ensures announced == old(announced) + AnnounceRow(item, Seen(table[..]), host, PID_CHANGE_PERIOD * 2)
    {
      ghost var rows := Seen(table[..]);
      var number := table.Length % 256;
      var j := 0;
      while j < number
        invariant 0 <= j <= number && rows == Seen(table[..])
        invariant announced == old(announced) + AnnounceRow(item, rows[..j], host, PID_CHANGE_PERIOD * 2)
      {
        assert rows[..j + 1][..j] == rows[..j];
        SameNid(table[j].eid1, host);
        if CompareNid(table[j].eid1, host) == 0 {
          announced := announced + [Announcement(PID_CHANGE_PERIOD * 2, item.ip1, item.pid, item.ip2, table[j].ip1)];
        }
        j := j + 1;
      }
      assert rows[..j] == rows;
    }

    /** Overwrites the list and timer of a node, writes the list back to the table and announces it. */
    method InstallList(node: ChainNode, time: uint32, pids: seq<uint32>, ghost k: nat)
      requires Linked() && k < |nodes| && node == nodes[k] && Installable(View(), k, pids)
      modifies this`announced, node`item, table
      ensures Linked() && View() == Install(old(View()), k, time, pids)
      ensures announced == old(announced) + AnnounceAll(table[..], host, old(node.item.eid))
    {
      OverwriteNode(node, time, pids, k);
      assert node.item == Chain()[k];
      UpdateTable(node);
      assert Seen(table[..]) == table[..];
      Announce(node);
    }

    method OverwriteNode(node: ChainNode, time: uint32, pids: seq<uint32>, ghost k: nat)
      requires Linked() && k < |nodes| && node == nodes[k] && |pids| == |node.item.pids|
      modifies node`item
      ensures Linked()
      ensures Chain() == old(Chain())[k := old(Chain())[k].(time := time, pids := pids)]
    {
      node.item := node.item.(time := time);
      var i := 0;
      while i < |pids|
        invariant 0 <= i <= |pids| == |node.item.pids|
        invariant node.item == old(node.item).(time := time, pids := pids[..i] + old(node.item.pids)[i..])
      {
        node.item := node.item.(pids := node.item.pids[i := pids[i]]);
        i := i + 1;
      }
      assert node.item.pids == pids;
    }

    // ---------- the handlers ----------

    method HandleChangeRequest(from: Nid, number: nat) returns (replies: seq<Msg>)
      requires Valid() && number <= 100
      ensures replies == React(View(), from, ChangeRequest, number).replies
      ensures React(View(), from, ChangeRequest, number).rm == View()
    {
      var node := Search(from);
      if node == null {
        return [];
      }
      CountFits(View(), Find(Chain(), from));
      var pids := ProposeList(node.item.pids, number);
      return [PidA(ProposeTime(node.item.time, number), pids)];
    }

    method HandlePidA(from: Nid, time: uint32, pids: seq<uint32>, number: nat) returns (replies: seq<Msg>)
      requires Valid() && 1 <= number <= 101 && Receivable(View(), from, PidA(time, pids))
      modifies this`pendingTime, pending
      ensures Valid()
      ensures View() == React(old(View()), from, PidA(time, pids), number).rm
      ensures replies == React(old(View()), from, PidA(time, pids), number).replies
      ensures announced == old(announced)
    {
      ReactionFrame(View(), from, PidA(time, pids), number, from);
      if Knows(Chain(), from) {
        AnyProposalStorable(View(), Find(Chain(), from), pids, number);
      }
      replies := ReceivePidA(from, time, pids, number);
    }

    method ReceivePidA(from: Nid, time: uint32, pids: seq<uint32>, number: nat) returns (replies: seq<Msg>)
      requires Linked() && (Knows(Chain(), from) ==> Storable(View(), Find(Chain(), from), pids, number))
      modifies this`pendingTime, pending
      ensures Linked() && View() == OnPidA(old(View()), from, time, pids, number).rm
      ensures replies == OnPidA(old(View()), from, time, pids, number).replies
    {
      var node := Search(from);
      if node == null {
        return [];
      }
      ghost var before, k := View(), Find(Chain(), from);
      assert node.item == before.chain[k];
      pendingTime := time;
      assert Chain() == before.chain;
      var agreed := TakeProposal(node.item.id, |node.item.pids|, pids, number);
      replies := [PidB(time, agreed)];
    }

    /** Stores the proposal in the neighbour's buffer, resolves it there and reads it back. */
    method TakeProposal(id: nat, n: nat, pids: seq<uint32>, number: nat) returns (agreed: seq<uint32>)
      requires id < pending.Length0 && n <= pending.Length1 && n <= |pids|
      requires Resolver.Bounded(pids[..n], TakenBy(table[..]), number)
      modifies pending
      ensures agreed == Resolver.Resolve(pids[..n], TakenBy(table[..]), number)
      ensures Buffers() == old(Buffers())[id := agreed + old(Buffers())[id][n..]]
    {
      CopyToBuffer(id, n, pids);
      assert Buffers()[id] == Buffer(id);
      assert Buffer(id)[..n] == pids[..n];
      ResolveBuffer(id, n, number);
      assert Buffers()[id] == Buffer(id);
      agreed := ReadBuffer(id, n);
    }

    method CopyToBuffer(id: nat, n: nat, pids: seq<uint32>)
      requires id < pending.Length0 && n <= pending.Length1 && n <= |pids|
      modifies pending
      ensures Buffers() == old(Buffers())[id := pids[..n] + old(Buffer(id))[n..]]
    {
      var i := 0;
      while i < n
        invariant 0 <= i <= n
        invariant forall p, j :: 0 <= p < pending.Length0 && 0 <= j < pending.Length1 ==>
          pending[p, j] == if p == id && j < i then pids[j] else old(pending[p, j])
      {
        pending[id, i] := pids[i];
        i := i + 1;
      }
      assert Buffer(id) == pids[..n] + old(Buffer(id))[n..];
      forall p | 0 <= p < pending.Length0 && p != id
        ensures Buffer(p) == old(Buffer(p))
      {
      }
    }

    method ReadBuffer(id: nat, n: nat) returns (pids: seq<uint32>)
      requires id < pending.Length0 && n <= pending.Length1
      ensures pids == Buffer(id)[..n]
    {
      pids := [];
      var i := 0;
      while i < n
        invariant 0 <= i <= n && pids == Buffer(id)[..i]
      {
        pids := pids + [pending[id, i]];
        i := i + 1;
      }
    }

    method HandlePidB(from: Nid, time: uint32, pids: seq<uint32>, number: nat) returns (replies: seq<Msg>)
      requires Valid() && 1 <= number <= 101 && Receivable(View(), from, PidB(time, pids))
      modifies this`announced, nodes, table
      ensures Valid()
      ensures View() == React(old(View()), from, PidB(time, pids), number).rm
      ensures replies == React(old(View()), from, PidB(time, pids), number).replies
      ensures announced == old(announced) + React(old(View()), from, PidB(time, pids), number).announced
    {
      ReactionFrame(View(), from, PidB(time, pids), number, from);
      if Knows(Chain(), from) {
        AnyListInstallable(View(), Find(Chain(), from), pids[..|PidsFor(View(), from)|]);
      }
      replies := ReceivePidB(from, time, pids, number);
    }

    method ReceivePidB(from: Nid, time: uint32, pids: seq<uint32>, number: nat) returns (replies: seq<Msg>)
      requires Linked()
      requires Knows(Chain(), from) ==>
        && |PidsFor(View(), from)| <= |pids|
        && Installable(View(), Find(Chain(), from), pids[..|PidsFor(View(), from)|])
      modifies this`announced, nodes, table
      ensures Linked() && View() == OnPidB(old(View()), from, time, pids, number).rm
      ensures replies == OnPidB(old(View()), from, time, pids, number).replies
      ensures announced == old(announced) + OnPidB(old(View()), from, time, pids, number).announced
    {
      var node := Search(from);
      if node == null {
        return [];
      }
      ghost var before, k := View(), Find(Chain(), from);
      assert node.item == before.chain[k];
      var got := pids[..|node.item.pids|];
      var inUse := ChainConflict(got);
      if !inUse {
        replies := [Ack];
        InstallList(node, time, got, k);
      } else {
        var next := ProposeList(got, number);
        replies := [PidA(ProposeTime(time, number), next)];
      }
    }

    method HandleAck(from: Nid, ghost number: nat) returns (replies: seq<Msg>)
      requires Valid() && 1 <= number <= 101
      modifies this`announced, nodes, table
      ensures Valid()
      ensures View() == React(old(View()), from, Ack, number).rm
      ensures replies == React(old(View()), from, Ack, number).replies
      ensures announced == old(announced) + React(old(View()), from, Ack, number).announced
    {
      ReactionFrame(View(), from, Ack, number, from);
      if Knows(Chain(), from) {
        Fits(View(), Find(Chain(), from));
        AnyListInstallable(View(), Find(Chain(), from), PendingFor(View(), from));
      }
      ReceiveAck(from);
      replies := [];
    }

    method ReceiveAck(from: Nid)
      requires Linked()
      requires Knows(Chain(), from) ==>
        var k := Find(Chain(), from);
        && k < |View().pending| && View().chain[k].id == k && |PidsFor(View(), from)| <= |View().pending[k]|
        && Installable(View(), k, PendingFor(View(), from))
      modifies this`announced, nodes, table
      ensures Linked() && View() == OnAck(old(View()), from).rm
      ensures announced == old(announced) + OnAck(old(View()), from).announced
    {
      var node := Search(from);
      if node == null {
        return;
      }
      ghost var before, k := View(), Find(Chain(), from);
      assert node.item == before.chain[k];
      assert Buffers()[k] == Buffer(k);
      var pids := ReadBuffer(node.item.id, |node.item.pids|);
      InstallList(node, pendingTime, pids, k);
    }

    // ---------- the timer callback ----------

    /** Those neighbours of the chain over whose links the sponsor test holds. */
    ghost function Sponsored(chain: seq<Neighbour>, rows: seq<Row>, k: nat): seq<Nid>
      requires k <= |chain|
    {
      if k == 0 then []
      else
        Sponsored(chain, rows, k - 1) +
        if Network.SponsorRow(rows, host, chain[k - 1].eid) then [chain[k - 1].eid] else []
    }

    /** The neighbours to which a change_request goes out, each once, in chain order. */
    method Timer0() returns (asked: seq<Nid>)
      requires Linked()
      ensures asked == Sponsored(Chain(), table[..], |nodes|)
    {
      asked := [];
      ghost var chain, rows := Chain(), table[..];
      var node := head;
      ghost var k := 0;
      while node != null
        invariant k <= |nodes| && node == NodeAt(k)
        invariant asked == Sponsored(chain, rows, k)
        decreases |nodes| - k
      {
        assert node.item == chain[k];
        var sponsor := SponsorTest(node.item.eid);
        if sponsor {
          asked := asked + [node.item.eid];
        }
        node := node.next;
        k := k + 1;
      }
    }

    lemma {:induction false} SponsoredMeaning(rm: RmState, k: nat, eid: Nid)
      requires rm.host == host && k <= |rm.chain|
      ensures eid in Sponsored(rm.chain, rm.table, k) <==> Find(rm.chain, eid) < k && Network.Sponsors(rm, eid)
    {
      if k > 0 {
        SponsoredMeaning(rm, k - 1, eid);
      }
    }

    /** No neighbour is asked twice, and they are asked in the order of the chain. */
    lemma {:induction false} SponsoredInOrder(chain: seq<Neighbour>, rows: seq<Row>, k: nat)
      requires k <= |chain| && Unique(chain)
      ensures forall a, b :: 0 <= a < b < |Sponsored(chain, rows, k)| ==>
        && Sponsored(chain, rows, k)[a] != Sponsored(chain, rows, k)[b]
        && Find(chain, Sponsored(chain, rows, k)[a]) < Find(chain, Sponsored(chain, rows, k)[b])
      ensures forall a :: 0 <= a < |Sponsored(chain, rows, k)| ==> Find(chain, Sponsored(chain, rows, k)[a]) < k
    {
      if k > 0 {
        SponsoredInOrder(chain, rows, k - 1);
        assert Find(chain, chain[k - 1].eid) == k - 1;
      }
    }

    method SponsorTest(eid: Nid) returns (sponsor: bool)
      ensures sponsor <==> Network.SponsorRow(table[..], host, eid)
    {
      ghost var rows := table[..];
      var i := 0;
      while i < table.Length
        invariant 0 <= i <= table.Length
        invariant forall j :: 0 <= j < i ==>
          !(Leads(rows[j], host, eid) && CompareNid(rows[j].eid1, rows[j].eid2) <= 0)
      {
        var item := table[i];
        assert item == rows[i];
        SameNid(host, item.eid1);
        SameNid(eid, item.eid2);
        if CompareNid(host, item.eid1) == 0 && CompareNid(eid, item.eid2) == 0
           && CompareNid(item.eid1, item.eid2) <= 0 {
          return true;
        }
        i := i + 1;
      }
      return false;
    }
  }
}
