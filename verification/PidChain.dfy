/** The chain of neighbours: the per-neighbour index of the link table (RM/main.c). */
module PidChain {
  import opened Words
  import opened LinkTable

  const MAX_PID_NUMBER: nat := 20
  const MAX_NEIGHBOURS: nat := 10
  const INITIAL_TIME: uint32 := 30

  /** `struct pid_info`: one neighbouring domain, `number_pid` being `|pids|`. */
  datatype Neighbour = Neighbour(eid: Nid, id: nat, time: uint32, pids: seq<uint32>)

  predicate Leads(row: Row, host: Nid, eid: Nid) {
    row.eid1 == host && row.eid2 == eid
  }

  /** The PIDs of the rows that lead from `host` to `eid`, in table order. */
  function PidsOf(table: seq<Row>, host: Nid, eid: Nid): (r: seq<uint32>)
    ensures |r| <= |table|
  {
    if table == [] then []
    else
      var last := table[|table| - 1];
      PidsOf(table[..|table| - 1], host, eid) + if Leads(last, host, eid) then [last.pid] else []
  }

  // ---------- search and build ----------

  /** The rows that lead from `host` to `eid`, in table order. */
  function RowsOf(table: seq<Row>, host: Nid, eid: Nid): (r: seq<Row>)
    ensures |r| == |PidsOf(table, host, eid)|
    ensures forall c :: 0 <= c < |r| ==> Leads(r[c], host, eid) && r[c].pid == PidsOf(table, host, eid)[c]
  {
    if table == [] then []
    else
      var last := table[|table| - 1];
      RowsOf(table[..|table| - 1], host, eid) + if Leads(last, host, eid) then [last] else []
  }

  /** Position of the first neighbour called `eid`, or `|chain|`. */
  function Find(chain: seq<Neighbour>, eid: Nid): (k: nat)
    ensures k <= |chain|
    ensures k < |chain| ==> chain[k].eid == eid
    ensures forall i :: 0 <= i < k ==> chain[i].eid != eid
  {
    if chain == [] || chain[0].eid == eid then 0 else 1 + Find(chain[1..], eid)
  }

  predicate Knows(chain: seq<Neighbour>, eid: Nid) {
    Find(chain, eid) < |chain|
  }

  function AddLink(chain: seq<Neighbour>, row: Row): seq<Neighbour> {
    var k := Find(chain, row.eid2);
    if k < |chain| then
      chain[k := chain[k].(pids := chain[k].pids + [row.pid])]
    else
      chain + [Neighbour(row.eid2, |chain|, INITIAL_TIME, [row.pid])]
  }

  /** The chain built from the table row by row. */
  function Build(table: seq<Row>, host: Nid): seq<Neighbour> {
    if table == [] then []
    else
      var last := table[|table| - 1];
      var chain := Build(table[..|table| - 1], host);
      if last.eid1 == host then AddLink(chain, last) else chain
  }

  ghost predicate Unique(chain: seq<Neighbour>) {
    forall i, j :: 0 <= i < j < |chain| ==> chain[i].eid != chain[j].eid
  }

  /** What the chain is for: each neighbour of `host` appears once, numbered from 0, with exactly
      the PIDs of its rows in table order. */
  ghost predicate Groups(chain: seq<Neighbour>, table: seq<Row>, host: Nid) {
    && (forall i :: 0 <= i < |chain| ==> chain[i].id == i)
    && Unique(chain)
    && (forall i :: 0 <= i < |chain| ==>
         chain[i].pids != [] && chain[i].pids == PidsOf(table, host, chain[i].eid))
    && (forall eid {:trigger Knows(chain, eid)} :: PidsOf(table, host, eid) != [] ==> Knows(chain, eid))
  }

  lemma PidsSnoc(table: seq<Row>, last: Row, host: Nid, eid: Nid)
    ensures PidsOf(table + [last], host, eid) ==
            PidsOf(table, host, eid) + if Leads(last, host, eid) then [last.pid] else []
  {
    assert (table + [last])[..|table|] == table;
  }

  lemma ExtendGroups(chain: seq<Neighbour>, table: seq<Row>, host: Nid, last: Row, k: nat)
    requires Groups(chain, table, host) && last.eid1 == host
    requires k < |chain| && chain[k].eid == last.eid2
    ensures Groups(chain[k := chain[k].(pids := chain[k].pids + [last.pid])], table + [last], host)
  {
    var chain' := chain[k := chain[k].(pids := chain[k].pids + [last.pid])];
    forall i | 0 <= i < |chain'|
      ensures chain'[i].pids != [] && chain'[i].pids == PidsOf(table + [last], host, chain'[i].eid)
    {
      PidsSnoc(table, last, host, chain'[i].eid);
    }
    forall eid | PidsOf(table + [last], host, eid) != []
      ensures Knows(chain', eid)
    {
      PidsSnoc(table, last, host, eid);
      assert eid == last.eid2 || Knows(chain, eid);
      var i := if eid == last.eid2 then k else Find(chain, eid);
      assert chain'[i].eid == eid;
    }
  }

  lemma AppendGroups(chain: seq<Neighbour>, table: seq<Row>, host: Nid, last: Row)
    requires Groups(chain, table, host) && last.eid1 == host && !Knows(chain, last.eid2)
    ensures Groups(chain + [Neighbour(last.eid2, |chain|, INITIAL_TIME, [last.pid])], table + [last], host)
  {
    var chain' := chain + [Neighbour(last.eid2, |chain|, INITIAL_TIME, [last.pid])];
    assert PidsOf(table, host, last.eid2) == [];
    forall i | 0 <= i < |chain'|
      ensures chain'[i].pids != [] && chain'[i].pids == PidsOf(table + [last], host, chain'[i].eid)
    {
      PidsSnoc(table, last, host, chain'[i].eid);
      if i < |chain| {
        assert chain[i].eid != last.eid2;
      }
    }
    forall eid | PidsOf(table + [last], host, eid) != []
      ensures Knows(chain', eid)
    {
      PidsSnoc(table, last, host, eid);
      assert eid == last.eid2 || Knows(chain, eid);
      var i := if eid == last.eid2 then |chain| else Find(chain, eid);
      assert chain'[i].eid == eid;
    }
  }

  lemma {:induction false} BuildGroups(table: seq<Row>, host: Nid)
    ensures Groups(Build(table, host), table, host)
    ensures forall i :: 0 <= i < |Build(table, host)| ==> Build(table, host)[i].time == INITIAL_TIME
  {
    if table != [] {
      var last := table[|table| - 1];
      var front := table[..|table| - 1];
      BuildGroups(front, host);
      if last.eid1 == host {
        var chain := Build(front, host);
        var k := Find(chain, last.eid2);
        if k < |chain| {
          ExtendGroups(chain, front, host, last, k);
        } else {
          AppendGroups(chain, front, host, last);
        }
        assert front + [last] == table;
      } else {
        assert forall eid :: PidsOf(table, host, eid) == PidsOf(front, host, eid);
      }
    }
  }

  // ---------- writing a new list back to the table ----------

  /** The C loops over the table count its rows in a `uint8_t`. */
  function RowsSeen(table: seq<Row>): (m: nat)
    ensures m <= |table|
    ensures |table| < 256 ==> m == |table|
  {
    |table| % 256
  }

  /** How many of the first `i` rows lead to `eid`. */
  function Count(table: seq<Row>, host: Nid, eid: Nid, i: nat): nat
    requires i <= |table|
  {
    |PidsOf(table[..i], host, eid)|
  }

  /** `update_nid_ip_nid_ip_nid`: the c-th row that leads to `eid` gets the c-th PID of the list. */
  function WriteBack(table: seq<Row>, host: Nid, eid: Nid, pids: seq<uint32>): (r: seq<Row>)
    requires Count(table, host, eid, RowsSeen(table)) <= |pids|
    ensures |r| == |table|
  {
    seq(|table|, i requires 0 <= i < |table| => WrittenRow(table, host, eid, pids, RowsSeen(table), i))
  }

  function WrittenRow(table: seq<Row>, host: Nid, eid: Nid, pids: seq<uint32>, m: nat, i: nat): Row
    requires i < |table| && m <= |table|
    requires Count(table, host, eid, m) <= |pids|
  {
    if i < m && Leads(table[i], host, eid) then
      CountStep(table, host, eid, i, m);
      table[i].(pid := pids[Count(table, host, eid, i)])
    else
      table[i]
  }

  lemma PrefixSnoc(pids: seq<uint32>, c: nat)
    ensures c < |pids| ==> pids[..c] + [pids[c]] == pids[..c + 1]
  {
  }

  lemma PidsStep(table: seq<Row>, host: Nid, eid: Nid, i: nat)
    requires i < |table|
    ensures PidsOf(table[..i + 1], host, eid) ==
            PidsOf(table[..i], host, eid) + if Leads(table[i], host, eid) then [table[i].pid] else []
  {
    assert table[..i + 1][..i] == table[..i];
  }

  lemma {:induction false} CountStep(table: seq<Row>, host: Nid, eid: Nid, i: nat, m: nat)
    requires i < m <= |table|
    ensures Count(table, host, eid, i + 1) == Count(table, host, eid, i) + if Leads(table[i], host, eid) then 1 else 0
    ensures Count(table, host, eid, i + 1) <= Count(table, host, eid, m)
    decreases m
  {
    assert table[..i + 1][..i] == table[..i];
    if i + 1 < m {
      CountStep(table, host, eid, i, m - 1);
      assert table[..m][..m - 1] == table[..m - 1];
    }
  }

  lemma {:induction false} CountGrows(table: seq<Row>, host: Nid, eid: Nid, i: nat, m: nat)
    requires i <= m <= |table|
    ensures Count(table, host, eid, i) <= Count(table, host, eid, m)
  {
    if i < m {
      CountStep(table, host, eid, i, m);
    }
  }

  /** A prefix of the written table lists the first PIDs of the new list for the neighbour. */
  lemma {:induction false} WrittenPrefix(table: seq<Row>, host: Nid, eid: Nid, pids: seq<uint32>, i: nat)
    requires i <= RowsSeen(table) && Count(table, host, eid, RowsSeen(table)) <= |pids|
    ensures Count(table, host, eid, i) <= |pids|
    ensures PidsOf(WriteBack(table, host, eid, pids)[..i], host, eid) == pids[..Count(table, host, eid, i)]
  {
    CountGrows(table, host, eid, i, RowsSeen(table));
    if i > 0 {
      WrittenPrefix(table, host, eid, pids, i - 1);
      WrittenStep(table, host, eid, pids, i - 1);
    }
  }

  lemma WrittenStep(table: seq<Row>, host: Nid, eid: Nid, pids: seq<uint32>, i: nat)
    requires i < RowsSeen(table) && Count(table, host, eid, RowsSeen(table)) <= |pids|
    ensures Count(table, host, eid, i) <= Count(table, host, eid, i + 1) <= |pids|
    ensures PidsOf(WriteBack(table, host, eid, pids)[..i], host, eid) == pids[..Count(table, host, eid, i)] ==>
            PidsOf(WriteBack(table, host, eid, pids)[..i + 1], host, eid) == pids[..Count(table, host, eid, i + 1)]
  {
    CountStep(table, host, eid, i, RowsSeen(table));
    PidsStep(WriteBack(table, host, eid, pids), host, eid, i);
    PrefixSnoc(pids, Count(table, host, eid, i));
  }

  /** The other neighbours keep their PIDs. */
  lemma {:induction false} OtherPids(table: seq<Row>, host: Nid, eid: Nid, pids: seq<uint32>, other: Nid, i: nat)
    requires i <= |table| && other != eid
    requires Count(table, host, eid, RowsSeen(table)) <= |pids|
    ensures PidsOf(WriteBack(table, host, eid, pids)[..i], host, other) == PidsOf(table[..i], host, other)
  {
    var table' := WriteBack(table, host, eid, pids);
    if i > 0 {
      OtherPids(table, host, eid, pids, other, i - 1);
      PidsStep(table, host, other, i - 1);
      PidsStep(table', host, other, i - 1);
      assert table'[i - 1] == WrittenRow(table, host, eid, pids, RowsSeen(table), i - 1);
    }
  }

  /** Installing a list for neighbour `k` and writing it back keeps the chain the grouping of the
      table, changes only the PIDs of that neighbour's rows, and leaves all other neighbours alone. */
  lemma WriteBackGroups(chain: seq<Neighbour>, table: seq<Row>, host: Nid, k: nat, time: uint32, pids: seq<uint32>)
    requires |table| < 256 && Groups(chain, table, host) && k < |chain|
    requires |pids| == |chain[k].pids|
    ensures Count(table, host, chain[k].eid, |table|) == |pids|
    ensures var table' := WriteBack(table, host, chain[k].eid, pids);
            && Groups(chain[k := chain[k].(time := time, pids := pids)], table', host)
            && (forall i :: 0 <= i < |table| ==> table'[i].(pid := 0) == table[i].(pid := 0))
            && (forall i :: 0 <= i < |table| && !Leads(table[i], host, chain[k].eid) ==> table'[i] == table[i])
            && (forall other :: other != chain[k].eid ==> PidsOf(table', host, other) == PidsOf(table, host, other))
  {
    var eid := chain[k].eid;
    var chain' := chain[k := chain[k].(time := time, pids := pids)];
    assert table[..|table|] == table;
    var table' := WriteBack(table, host, eid, pids);
    assert table'[..|table|] == table';
    forall other
      ensures PidsOf(table', host, other) == if other == eid then pids else PidsOf(table, host, other)
    {
      if other == eid {
        WrittenPrefix(table, host, eid, pids, |table|);
      } else {
        OtherPids(table, host, eid, pids, other, |table|);
      }
    }
    forall other | PidsOf(table', host, other) != []
      ensures Knows(chain', other)
    {
      assert PidsOf(table, host, other) != [] && Knows(chain, other);
      assert chain'[Find(chain, other)].eid == other;
    }
  }

  /** The neighbour's rows all hold the list after it has been written back. */
  predicate LandsInFull(table: seq<Row>, host: Nid, eid: Nid, pids: seq<uint32>) {
    && Count(table, host, eid, RowsSeen(table)) <= |pids|
    && PidsOf(WriteBack(table, host, eid, pids), host, eid) == pids
  }

  /** The exact reach of the `uint8_t` counter: every list of the right length can be written back
      in full if and only if no row of the neighbour lies beyond the first `|table| % 256` rows. */
  lemma {:induction false} WriteBackReach(table: seq<Row>, host: Nid, eid: Nid)
    ensures (forall i :: RowsSeen(table) <= i < |table| ==> !Leads(table[i], host, eid)) <==>
            (forall pids: seq<uint32> :: |pids| == |PidsOf(table, host, eid)| ==> LandsInFull(table, host, eid, pids))
  {
    var m := RowsSeen(table);
    if forall i :: m <= i < |table| ==> !Leads(table[i], host, eid) {
      forall pids: seq<uint32> | |pids| == |PidsOf(table, host, eid)|
        ensures LandsInFull(table, host, eid, pids)
      {
        LandsWhenSeen(table, host, eid, pids);
      }
    } else {
      var j :| m <= j < |table| && Leads(table[j], host, eid);
      var pids := LostWhenUnseen(table, host, eid, j);
      assert !LandsInFull(table, host, eid, pids);
    }
  }

  lemma LandsWhenSeen(table: seq<Row>, host: Nid, eid: Nid, pids: seq<uint32>)
    requires forall i :: RowsSeen(table) <= i < |table| ==> !Leads(table[i], host, eid)
    requires |pids| == |PidsOf(table, host, eid)|
    ensures LandsInFull(table, host, eid, pids)
  {
    var m := RowsSeen(table);
    PidsBeyond(table, host, eid, m);
    WrittenPrefix(table, host, eid, pids, m);
    PidsBeyond(WriteBack(table, host, eid, pids), host, eid, m);
  }

  lemma {:induction false} LostWhenUnseen(table: seq<Row>, host: Nid, eid: Nid, j: nat) returns (pids: seq<uint32>)
    requires RowsSeen(table) <= j < |table| && Leads(table[j], host, eid)
    ensures |pids| == |PidsOf(table, host, eid)| && !LandsInFull(table, host, eid, pids)
  {
    var c := Count(table, host, eid, j);
    RowPid(table, host, eid, j);
    PrefixCount(table, host, eid, RowsSeen(table));
    var other: uint32 := if table[j].pid == 0 then 1 else 0;
    pids := seq(|PidsOf(table, host, eid)|, i => other);
    var table' := WriteBack(table, host, eid, pids);
    SameShape(table, table', host, eid, j);
    RowPid(table', host, eid, j);
    assert PidsOf(table', host, eid)[c] == table[j].pid;
    assert pids[c] == other;
  }

  lemma {:induction false} PrefixCount(table: seq<Row>, host: Nid, eid: Nid, m: nat)
    requires m <= |table|
    ensures Count(table, host, eid, m) <= |PidsOf(table, host, eid)|
    decreases |table|
  {
    if m == |table| {
      assert table[..m] == table;
    } else {
      var front := table[..|table| - 1];
      assert front[..m] == table[..m];
      PrefixCount(front, host, eid, m);
    }
  }

  lemma {:induction false} PidsBeyond(table: seq<Row>, host: Nid, eid: Nid, m: nat)
    requires m <= |table| && forall i :: m <= i < |table| ==> !Leads(table[i], host, eid)
    ensures PidsOf(table, host, eid) == PidsOf(table[..m], host, eid)
    decreases |table|
  {
    if m == |table| {
      assert table[..m] == table;
    } else {
      var front := table[..|table| - 1];
      assert front[..m] == table[..m];
      PidsBeyond(front, host, eid, m);
    }
  }

  /** Row `j` of a neighbour holds the PID at the position its earlier rows count up to. */
  lemma {:induction false} RowPid(table: seq<Row>, host: Nid, eid: Nid, j: nat)
    requires j < |table| && Leads(table[j], host, eid)
    ensures Count(table, host, eid, j) < |PidsOf(table, host, eid)|
    ensures PidsOf(table, host, eid)[Count(table, host, eid, j)] == table[j].pid
    decreases |table|
  {
    var front := table[..|table| - 1];
    assert front[..j] == table[..j];
    if j < |front| {
      RowPid(front, host, eid, j);
    }
  }

  lemma {:induction false} SameShape(table: seq<Row>, table': seq<Row>, host: Nid, eid: Nid, j: nat)
    requires j <= |table| == |table'|
    requires forall i :: 0 <= i < |table| ==> Leads(table[i], host, eid) == Leads(table'[i], host, eid)
    ensures Count(table, host, eid, j) == Count(table', host, eid, j)
  {
    if j > 0 {
      SameShape(table, table', host, eid, j - 1);
      assert table[..j][..j - 1] == table[..j - 1];
      assert table'[..j][..j - 1] == table'[..j - 1];
    }
  }

  // ---------- both ends of a link ----------

  /** Two domains that load the same table, each aligned to itself, list the same PIDs for each
      other in the same order. */
  lemma {:induction false} BothEndsAgree(table: seq<Row>, a: Nid, b: Nid)
    requires a != b
    ensures PidsOf(Align(table, a), a, b) == PidsOf(Align(table, b), b, a)
  {
    if table != [] {
      var n := |table| - 1;
      BothEndsAgree(table[..n], a, b);
      assert Align(table, a)[..n] == Align(table[..n], a);
      assert Align(table, b)[..n] == Align(table[..n], b);
    }
  }

  /** Of a table of 256 rows the counter reaches none, though the domain of its first row has only that
      one link. */
  lemma FullTableUnreached(row: Row, other: Row)
    requires !Touches(other, row.eid1)
    ensures var table := [row] + seq(255, i requires 0 <= i < 255 => other);
      && RowsSeen(table) == 0 && PidsOf(table, row.eid1, row.eid2) == [row.pid]
      && exists pids :: |pids| == 1 && !LandsInFull(table, row.eid1, row.eid2, pids)
  {
    var table := [row] + seq(255, i requires 0 <= i < 255 => other);
    PidsBeyond(table, row.eid1, row.eid2, 1);
    assert table[..1] == [row] && [row][..0] + [row] == [row];
    PidsSnoc([], row, row.eid1, row.eid2);
    assert [] + [row] == [row];
    var pids := LostWhenUnseen(table, row.eid1, row.eid2, 0);
  }
}
