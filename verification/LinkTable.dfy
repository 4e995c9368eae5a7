/** The table of inter-domain links and its alignment to the local domain (RM/wenxingbeng.c). */
module LinkTable {
  import opened Words

  /** A network identifier: sixteen bytes. */
  type Nid = s: seq<uint8> | |s| == 16 witness [0, 0, 0, 0, 0, 0, 0, 0, 0, 0, 0, 0, 0, 0, 0, 0]

  /** One link: domain `eid1` reaches domain `eid2` over the path called `pid`. */
  datatype Row = Row(eid1: Nid, ip1: uint32, pid: uint32, ip2: uint32, eid2: Nid)

  // ---------- compare_nid ----------

  /** Byte-wise lexicographic order from position `i`: -1, 0 or 1. */
  function CompareFrom(a: Nid, b: Nid, i: nat): int
    requires i <= 16
    decreases 16 - i
  {
    if i == 16 then 0
    else if a[i] < b[i] then -1
    else if a[i] > b[i] then 1
    else CompareFrom(a, b, i + 1)
  }

  function CompareNid(a: Nid, b: Nid): int {
    CompareFrom(a, b, 0)
  }

  method CompareNidLoop(a: Nid, b: Nid) returns (ret: int)
    ensures ret == CompareNid(a, b)
    ensures ret == 0 <==> a == b
    ensures ret < 0 <==> exists k :: 0 <= k < 16 && a[..k] == b[..k] && a[k] < b[k]
  {
    var i := 0;
    CompareMeaning(a, b, 0);
    while i < 16
      invariant 0 <= i <= 16
      invariant a[..i] == b[..i]
      invariant CompareFrom(a, b, i) == CompareNid(a, b)
    {
      if a[i] < b[i] {
        return -1;
      } else if a[i] > b[i] {
        return 1;
      }
      i := i + 1;
    }
    return 0;
  }

  /** The result of the comparison, said without recursion. */
  lemma {:induction false} CompareMeaning(a: Nid, b: Nid, i: nat)
    requires i <= 16 && a[..i] == b[..i]
    ensures CompareFrom(a, b, i) == 0 <==> a == b
    ensures CompareFrom(a, b, i) < 0 <==> exists k :: 0 <= k < 16 && a[..k] == b[..k] && a[k] < b[k]
    ensures -1 <= CompareFrom(a, b, i) <= 1
    decreases 16 - i
  {
    if i == 16 {
      assert a == a[..16] && b == b[..16];
    } else if a[i] == b[i] {
      assert a[..i + 1] == a[..i] + [a[i]] && b[..i + 1] == b[..i] + [b[i]];
      CompareMeaning(a, b, i + 1);
    } else if a[i] > b[i] {
      forall k | 0 <= k < 16
        ensures k < i ==> a[k] == b[k]
        ensures k > i ==> a[..k] != b[..k]
      {
        if k < i {
          assert a[..i][k] == b[..i][k];
        } else if k > i {
          assert a[..k][i] == a[i] && b[..k][i] == b[i];
        }
      }
    }
  }

  lemma {:induction false} CompareSwap(a: Nid, b: Nid, i: nat)
    requires i <= 16
    ensures CompareFrom(b, a, i) == -CompareFrom(a, b, i)
    decreases 16 - i
  {
    if i < 16 {
      CompareSwap(a, b, i + 1);
    }
  }

  lemma {:induction false} CompareTransitiveFrom(a: Nid, b: Nid, c: Nid, i: nat)
    requires i <= 16 && CompareFrom(a, b, i) <= 0 && CompareFrom(b, c, i) <= 0
    ensures CompareFrom(a, c, i) <= 0
    decreases 16 - i
  {
    if i < 16 && a[i] == b[i] == c[i] {
      CompareTransitiveFrom(a, b, c, i + 1);
    }
  }

  /** `compare_nid` is a total order, so of the two ends of a link exactly one is its sponsor. */
  lemma CompareTotalOrder(a: Nid, b: Nid, c: Nid)
    ensures CompareNid(a, b) == 0 <==> a == b
    ensures CompareNid(a, b) <= 0 && CompareNid(b, a) <= 0 ==> a == b
    ensures CompareNid(a, b) <= 0 && CompareNid(b, c) <= 0 ==> CompareNid(a, c) <= 0
    ensures a != b ==> (CompareNid(a, b) <= 0 <==> !(CompareNid(b, a) <= 0))
  {
    assert a[..0] == b[..0];
    CompareMeaning(a, b, 0);
    CompareSwap(a, b, 0);
    if CompareNid(a, b) <= 0 && CompareNid(b, c) <= 0 {
      CompareTransitiveFrom(a, b, c, 0);
    }
  }

  // ---------- aligment_configure ----------

  /** A row that ends at `host` is turned round so that it starts there; other rows are left alone. */
  function AlignRow(row: Row, host: Nid): Row {
    if host != row.eid1 && host == row.eid2 then Row(host, row.ip2, row.pid, row.ip1, row.eid1) else row
  }

  function Align(table: seq<Row>, host: Nid): (r: seq<Row>)
    ensures |r| == |table|
    ensures forall i :: 0 <= i < |table| ==> r[i] == AlignRow(table[i], host)
  {
    seq(|table|, i requires 0 <= i < |table| => AlignRow(table[i], host))
  }

  method AlignConfigure(table: array<Row>, host: Nid)
    modifies table
    ensures table[..] == Align(old(table[..]), host)
  {
    var i := 0;
    while i < table.Length
      invariant 0 <= i <= table.Length
      invariant forall k :: 0 <= k < i ==> table[k] == AlignRow(old(table[k]), host)
      invariant forall k :: i <= k < table.Length ==> table[k] == old(table[k])
    {
      var item := table[i];
      if host == item.eid1 || host == item.eid2 {
        if host != item.eid1 {
          var ipTemp := item.ip1;
          item := item.(ip1 := item.ip2);
          item := item.(ip2 := ipTemp);
          item := item.(eid2 := item.eid1);
          item := item.(eid1 := host);
          table[i] := item;
        }
      }
      i := i + 1;
    }
  }

  /** The undirected link a row stands for: its two (domain, address) ends and its PID. */
  function Link(row: Row): (multiset<(Nid, uint32)>, uint32) {
    (multiset{(row.eid1, row.ip1), (row.eid2, row.ip2)}, row.pid)
  }

  predicate Touches(row: Row, host: Nid) {
    row.eid1 == host || row.eid2 == host
  }

  /** Alignment is idempotent, keeps every undirected link in its place, and afterwards a row
      touches the local domain exactly when it starts there. */
  lemma AlignmentLaws(table: seq<Row>, host: Nid)
    ensures Align(Align(table, host), host) == Align(table, host)
    ensures forall i :: 0 <= i < |table| ==> Link(Align(table, host)[i]) == Link(table[i])
    ensures forall i :: 0 <= i < |table| ==>
      (Touches(table[i], host) <==> Align(table, host)[i].eid1 == host)
  {
    forall i | 0 <= i < |table|
      ensures Link(Align(table, host)[i]) == Link(table[i])
    {
      var row := table[i];
      assert multiset{(row.eid2, row.ip2), (row.eid1, row.ip1)} == multiset{(row.eid1, row.ip1), (row.eid2, row.ip2)};
    }
  }
}
