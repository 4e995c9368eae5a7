/** The timer list as it runs: heap nodes linked in both directions, relinked in place
    (local_timer.c and main.c of NetworkMonitoringTools/stats_send_ver_test1). */
module TimerList {
  import opened TimerSpec

  class TimerNode {
    var id: int
    var flag: int
    var elapse: int
    var time: int
    var pre: TimerNode?
    var next: TimerNode?
  }

  function Value(n: TimerNode): Timer
    reads n
  {
    Timer(n.id, n.flag, n.elapse, n.time)
  }

  /** The nodes are linked to each other in this order, in both directions, and end in null. */
  ghost predicate Linked(nodes: seq<TimerNode>)
    reads nodes
  {
    && (forall i {:trigger nodes[i].next} :: 0 <= i < |nodes| ==> nodes[i].next == NodeAt(nodes, i + 1))
    && (forall i {:trigger nodes[i].pre} :: 0 <= i < |nodes| ==> nodes[i].pre == NodeAt(nodes, i - 1))
    && (forall i, j :: 0 <= i < j < |nodes| ==> nodes[i] != nodes[j])
  }

  ghost function NodeAt(nodes: seq<TimerNode>, i: int): TimerNode? {
    if 0 <= i < |nodes| then nodes[i] else null
  }

  ghost function Contents(nodes: seq<TimerNode>): (s: seq<Timer>)
    reads nodes
    ensures |s| == |nodes|
    ensures forall i :: 0 <= i < |nodes| ==> s[i] == Value(nodes[i])
  {
    seq(|nodes|, i requires 0 <= i < |nodes| reads nodes => Value(nodes[i]))
  }

  // ---------- relinking ----------

  /** `delete_repete_timer`: unlinks a node and returns the one behind it. */
  method DeleteRepeteTimer(p: TimerNode, ghost nodes: seq<TimerNode>, ghost k: nat)
    returns (ret: TimerNode?, ghost rest: seq<TimerNode>)
    requires Linked(nodes) && k < |nodes| && p == nodes[k]
    modifies NodeAt(nodes, k - 1), NodeAt(nodes, k + 1)
    ensures rest == nodes[..k] + nodes[k + 1..] && Linked(rest)
    ensures ret == NodeAt(nodes, k + 1) == NodeAt(rest, k)
    ensures forall i :: 0 <= i < |nodes| ==> Value(nodes[i]) == old(Value(nodes[i]))
    ensures Contents(rest) == Cut(old(Contents(nodes)), k)
  {
    hide Contents, Cut;
    rest := nodes[..k] + nodes[k + 1..];
    ghost var before := Contents(nodes);
    CutAt(before, k);
    if p.pre == null {
      if p.next == null {
        ret := null;
      } else {
        p.next.pre := null;
        ret := p.next;
      }
    } else if p.next != null {
      p.next.pre := p.pre;
      p.pre.next := p.next;
      ret := p.next;
    } else {
      p.pre.next := null;
      ret := null;
    }
    forall i | 0 <= i < |rest|
      ensures rest[i].next == NodeAt(rest, i + 1)
      ensures rest[i].pre == NodeAt(rest, i - 1)
      ensures Value(rest[i]) == Cut(before, k)[i]
    {
      var q := if i < k then i else i + 1;
      assert rest[i] == nodes[q];
      assert old(nodes[q].next) == NodeAt(nodes, q + 1) && old(nodes[q].pre) == NodeAt(nodes, q - 1);
    }
    CutDistinct(nodes, k);
  }

  lemma CutDistinct(nodes: seq<TimerNode>, k: nat)
    requires k < |nodes| && forall i, j :: 0 <= i < j < |nodes| ==> nodes[i] != nodes[j]
    ensures var rest := nodes[..k] + nodes[k + 1..]; forall i, j :: 0 <= i < j < |rest| ==> rest[i] != rest[j]
  {
  }

  ghost function Inserted(nodes: seq<TimerNode>, j: nat, pnew: TimerNode): seq<TimerNode>
    requires j <= |nodes|
  {
    nodes[..j] + [pnew] + nodes[j..]
  }

  /** Links a new node before the first one. */
  method LinkFirst(p: TimerNode, pnew: TimerNode, now: int, ghost nodes: seq<TimerNode>)
    requires Linked(nodes) && nodes != [] && p == nodes[0] && pnew !in nodes
    modifies p, pnew
    ensures Linked(Inserted(nodes, 0, pnew))
    ensures Contents(Inserted(nodes, 0, pnew)) == PlaceAt(old(Contents(nodes)), 0, old(Value(pnew)), now)
    ensures pnew.id == old(pnew.id) && pnew.flag == old(pnew.flag) && pnew.time == old(pnew.time)
  {
    var elapse := p.time - pnew.time;
    pnew.pre := null;
    pnew.next := p;
    p.pre := pnew;
    pnew.elapse := pnew.time - now;
    p.elapse := elapse;
  }

  /** Links a new node before one that is not the first. */
  method LinkBefore(p: TimerNode, pnew: TimerNode, now: int, ghost nodes: seq<TimerNode>, ghost j: nat)
    requires Linked(nodes) && 0 < j < |nodes| && p == nodes[j] && pnew !in nodes
    modifies nodes[j - 1], p, pnew
    ensures Linked(Inserted(nodes, j, pnew))
    ensures Contents(Inserted(nodes, j, pnew)) == PlaceAt(old(Contents(nodes)), j, old(Value(pnew)), now)
    ensures pnew.id == old(pnew.id) && pnew.flag == old(pnew.flag) && pnew.time == old(pnew.time)
  {
    hide PlaceAt, Inserted, Linked, Contents;
    ghost var r := Inserted(nodes, j, pnew);
    InsertedAt(nodes, j, pnew);
    PlacedExactly(Contents(nodes), j, Value(pnew), now);
    var elapse := p.time - pnew.time;
    SetLinks(p, pnew, nodes, j);
    SetElapse(p, elapse, r, j + 1);
    SetElapse(pnew, pnew.time - pnew.pre.time, r, j);
  }

  method SetElapse(n: TimerNode, elapse: int, ghost nodes: seq<TimerNode>, ghost j: nat)
    requires Linked(nodes) && j < |nodes| && n == nodes[j]
    modifies n`elapse
    ensures Linked(nodes) && n.elapse == elapse
    ensures Contents(nodes) == old(Contents(nodes))[j := Value(n)]
  {
    n.elapse := elapse;
  }

  /** The four links around the new node. */
  method SetLinks(p: TimerNode, pnew: TimerNode, ghost nodes: seq<TimerNode>, ghost j: nat)
    requires Linked(nodes) && 0 < j < |nodes| && p == nodes[j] && pnew !in nodes
    modifies (nodes[j - 1] as TimerNode)`next, p`pre, pnew`pre, pnew`next
    ensures Linked(Inserted(nodes, j, pnew)) && pnew.pre == nodes[j - 1]
  {
    hide Inserted;
    assert p.pre == NodeAt(nodes, j - 1) == nodes[j - 1];
    p.pre.next := pnew;
    pnew.next := p;
    pnew.pre := p.pre;
    p.pre := pnew;
    ghost var r := Inserted(nodes, j, pnew);
    InsertedAt(nodes, j, pnew);
    forall i | 0 <= i < |r|
      ensures r[i].next == NodeAt(r, i + 1) && r[i].pre == NodeAt(r, i - 1)
    {
      if i < j {
        assert old(nodes[i].next) == NodeAt(nodes, i + 1) && old(nodes[i].pre) == NodeAt(nodes, i - 1);
      } else if i > j {
        assert old(nodes[i - 1].next) == NodeAt(nodes, i) && old(nodes[i - 1].pre) == NodeAt(nodes, i - 2);
      }
    }
    InsertedDistinct(nodes, j, pnew);
  }

  lemma InsertedAt(nodes: seq<TimerNode>, j: nat, pnew: TimerNode)
    requires j <= |nodes|
    ensures var r := Inserted(nodes, j, pnew);
      && |r| == |nodes| + 1
      && forall i {:trigger r[i]} :: 0 <= i < |r| ==>
           r[i] == if i < j then nodes[i] else if i == j then pnew else nodes[i - 1]
  {
  }

  lemma InsertedDistinct(nodes: seq<TimerNode>, j: nat, pnew: TimerNode)
    requires j <= |nodes| && pnew !in nodes && forall i, k :: 0 <= i < k < |nodes| ==> nodes[i] != nodes[k]
    ensures var r := Inserted(nodes, j, pnew); forall i, k :: 0 <= i < k < |r| ==> r[i] != r[k]
  {
  }

  /** Links a new node behind the last one. */
  method LinkLast(pEnd: TimerNode, pnew: TimerNode, now: int, ghost nodes: seq<TimerNode>)
    requires Linked(nodes) && nodes != [] && pEnd == nodes[|nodes| - 1] && pnew !in nodes
    modifies pEnd, pnew
    ensures Linked(Inserted(nodes, |nodes|, pnew))
    ensures Contents(Inserted(nodes, |nodes|, pnew)) == PlaceAt(old(Contents(nodes)), |nodes|, old(Value(pnew)), now)
    ensures pnew.id == old(pnew.id) && pnew.flag == old(pnew.flag) && pnew.time == old(pnew.time)
  {
    pnew.pre := pEnd;
    pEnd.next := pnew;
    pnew.elapse := pnew.time - pEnd.time;
    pnew.next := null;
  }

  ghost predicate Within(nodes: seq<TimerNode>, repr: set<TimerNode>) {
    forall i :: 0 <= i < |nodes| ==> nodes[i] in repr
  }

  ghost predicate IsList(head: TimerNode?, nodes: seq<TimerNode>)
    reads nodes
  {
    head == NodeAt(nodes, 0) && Linked(nodes)
  }

  // ---------- insertion ----------

  /** `insert_a_timer`: ascending insertion that also removes the timer with the same id and flag. */
  method InsertATimer(head: TimerNode?, pnew: TimerNode, now: int, ghost nodes: seq<TimerNode>)
    returns (head': TimerNode?, ghost nodes': seq<TimerNode>)
    requires IsList(head, nodes) && pnew !in nodes
    modifies nodes, pnew
    ensures IsList(head', nodes')
    ensures Contents(nodes') == Insert(old(Contents(nodes)), old(Value(pnew)), now)
    ensures Within(nodes', (set n | n in nodes) + {pnew})
  {
    hide PlaceAt, Slot, Cut, Dup, Contents;
    head', nodes' := head, nodes;
    ghost var repr := (set n | n in nodes) + {pnew};
    ghost var s, x := Contents(nodes), Value(pnew);
    if pnew.time - now < 0 {
      return;
    }
    var repeted;
    head', repeted, nodes' := DropHeadDuplicate(head, pnew, nodes);
    if head' == null {
      head' := pnew;
      pnew.pre := null;
      pnew.next := null;
      pnew.elapse := pnew.time - now;
      nodes' := [pnew];
      InsertAlone(s, x, now);
      return;
    }
    head', nodes' := PlaceOrScan(head', pnew, now, repeted, nodes', repr, s, x);
  }

  /** Removes the head if it is the duplicate. */
  method DropHeadDuplicate(head: TimerNode?, pnew: TimerNode, ghost nodes: seq<TimerNode>)
    returns (head': TimerNode?, repeted: bool, ghost nodes': seq<TimerNode>)
    requires IsList(head, nodes) && pnew !in nodes
    modifies NodeAt(nodes, 1)
    ensures IsList(head', nodes') && pnew !in nodes' && Within(nodes', set n | n in nodes)
    ensures Value(pnew) == old(Value(pnew))
    ensures repeted ==> old(Contents(nodes)) != [] && Same(old(Contents(nodes))[0], Value(pnew))
    ensures repeted ==> Contents(nodes') == Without(old(Contents(nodes)), Value(pnew))
    ensures !repeted ==> head' == head && nodes' == nodes && Contents(nodes') == old(Contents(nodes))
    ensures !repeted && nodes != [] ==> !Same(Contents(nodes)[0], Value(pnew))
  {
    hide Cut, Contents;
    head', repeted, nodes' := head, false, nodes;
    if head != null && head.id == pnew.id && head.flag == pnew.flag {
      DupIs(Contents(nodes), Value(pnew), 0);
      head', nodes' := DeleteRepeteTimer(head, nodes, 0);
      repeted := true;
    }
  }

  lemma InsertAlone(s: seq<Timer>, x: Timer, now: int)
    requires x.time >= now && (s == [] || Without(s, x) == [])
    ensures Insert(s, x, now) == [x.(elapse := x.time - now)]
  {
    assert Without(s, x) == [];
  }

  /** The list is not empty and its head is no duplicate: try the place before the head, then scan. */
  method PlaceOrScan(head: TimerNode, pnew: TimerNode, now: int, repeted: bool, ghost nodes: seq<TimerNode>,
                     ghost repr: set<TimerNode>, ghost s: seq<Timer>, ghost x: Timer)
    returns (head': TimerNode, ghost nodes': seq<TimerNode>)
    requires IsList(head, nodes) && pnew !in nodes && x == Value(pnew) && Within(nodes, repr) && pnew in repr
    requires if repeted then Contents(nodes) == Without(s, x) else Contents(nodes) == s && !Same(s[0], x)
    modifies repr
    ensures IsList(head', nodes')
    ensures var rest := Without(s, x); Contents(nodes') == PlaceAt(rest, Slot(rest, x.time), x, now)
    ensures Within(nodes', repr)
  {
    head', nodes' := head, nodes;
    var p := head;
    var inserted := false;
    if p.time - pnew.time >= 0 {
      SlotIs(Contents(nodes), x.time, 0);
      LinkFirst(p, pnew, now, nodes);
      head', nodes' := pnew, Inserted(nodes, 0, pnew);
      inserted := true;
    }
    var pEnd := p;
    assert p == nodes'[if inserted then 1 else 0];
    p := p.next;
    nodes' := Scan(head', pEnd, p, pnew, now, inserted, repeted, nodes', repr, s, x, if inserted then 2 else 1);
  }

  /** The scan behind the first timer: removes the duplicate, links the new node before the first
      timer that is not earlier, or at the end. */
  method Scan(head: TimerNode, pEnd0: TimerNode, p0: TimerNode?, pnew: TimerNode, now: int,
              inserted0: bool, repeted0: bool, ghost nodes: seq<TimerNode>, ghost repr: set<TimerNode>,
              ghost s: seq<Timer>, ghost x: Timer, ghost i0: nat)
    returns (ghost nodes': seq<TimerNode>)
    requires IsList(head, nodes) && i0 >= 1 && p0 == NodeAt(nodes, i0) && pEnd0 == NodeAt(nodes, i0 - 1)
    requires Scanned(Contents(nodes), s, x, now, inserted0, repeted0, i0)
    requires pnew.id == x.id && pnew.flag == x.flag && pnew.time == x.time
    requires (!inserted0 ==> pnew !in nodes) && Within(nodes, repr) && pnew in repr
    modifies repr
    ensures IsList(head, nodes')
    ensures var rest := Without(s, x); Contents(nodes') == PlaceAt(rest, Slot(rest, x.time), x, now)
    ensures Within(nodes', repr)
  {
    hide Scanned, PlaceAt, Slot, Without, Cut, Dup, Contents;
    nodes' := nodes;
    var p, pEnd, inserted, repeted := p0, pEnd0, inserted0, repeted0;
    ghost var i := i0;
    while p != null
      invariant IsList(head, nodes') && 1 <= i <= |nodes'| && p == NodeAt(nodes', i) && pEnd == NodeAt(nodes', i - 1)
      invariant Scanned(Contents(nodes'), s, x, now, inserted, repeted, i)
      invariant pnew.id == x.id && pnew.flag == x.flag && pnew.time == x.time
      invariant !inserted ==> pnew !in nodes'
      invariant Within(nodes', repr)
      decreases |nodes'| - i
    {
      if inserted && repeted {
        ScanEnds(Contents(nodes'), s, x, now, inserted, repeted, i);
        return;
      } else if !repeted {
        p, repeted, nodes' := VisitDuplicate(p, pnew, now, inserted, nodes', repr, s, x, i);
        if p == null {
          break;
        }
      }
      inserted, nodes', i := VisitSlot(p, pnew, now, inserted, repeted, nodes', repr, s, x, i);
      assert p == nodes'[i];
      pEnd := p;
      p := p.next;
      i := i + 1;
    }
    ScanEnds(Contents(nodes'), s, x, now, inserted, repeted, i);
    if !inserted {
      PlaceIgnoresElapse(Contents(nodes'), |nodes'|, x, Value(pnew), now);
      LinkLast(pEnd, pnew, now, nodes');
      nodes' := Inserted(nodes', |nodes'|, pnew);
    }
  }

  /** Removes the visited timer if it is the duplicate. */
  method VisitDuplicate(p: TimerNode, pnew: TimerNode, now: int, inserted: bool,
                        ghost nodes: seq<TimerNode>, ghost repr: set<TimerNode>,
                        ghost s: seq<Timer>, ghost x: Timer, ghost i: nat)
    returns (p': TimerNode?, repeted: bool, ghost nodes': seq<TimerNode>)
    requires Linked(nodes) && 1 <= i < |nodes| && p == nodes[i]
    requires Scanned(Contents(nodes), s, x, now, inserted, false, i)
    requires pnew.id == x.id && pnew.flag == x.flag && pnew.time == x.time && (!inserted ==> pnew !in nodes)
    requires Within(nodes, repr)
    modifies repr
    ensures Linked(nodes') && p' == NodeAt(nodes', i) && i <= |nodes'| <= |nodes| && nodes'[..i] == nodes[..i]
    ensures p' == null ==> repeted
    ensures Scanned(Contents(nodes'), s, x, now, inserted, repeted, i)
    ensures p' != null ==> repeted || !Same(Value(p'), x)
    ensures Within(nodes', repr) && (!inserted ==> pnew !in nodes')
    ensures pnew.id == x.id && pnew.flag == x.flag && pnew.time == x.time
  {
    hide Scanned, PlaceAt, Slot, Without, Cut, Dup, Contents;
    p', repeted, nodes' := p, false, nodes;
    if p.id == pnew.id && p.flag == pnew.flag {
      ScanDelete(Contents(nodes), s, x, now, inserted, i);
      p', nodes' := DeleteRepeteTimer(p, nodes, i);
      repeted := true;
    }
  }

  /** Links the new node before the visited one if that is its place. */
  method VisitSlot(p: TimerNode, pnew: TimerNode, now: int, inserted: bool, repeted: bool,
                   ghost nodes: seq<TimerNode>, ghost repr: set<TimerNode>,
                   ghost s: seq<Timer>, ghost x: Timer, ghost i: nat)
    returns (inserted': bool, ghost nodes': seq<TimerNode>, ghost i': nat)
    requires Linked(nodes) && 1 <= i < |nodes| && p == nodes[i]
    requires Scanned(Contents(nodes), s, x, now, inserted, repeted, i)
    requires repeted || !Same(Value(p), x)
    requires pnew.id == x.id && pnew.flag == x.flag && pnew.time == x.time && (!inserted ==> pnew !in nodes)
    requires Within(nodes, repr) && pnew in repr
    modifies repr
    ensures Linked(nodes') && i' < |nodes'| && p == nodes'[i'] && NodeAt(nodes', 0) == NodeAt(nodes, 0)
    ensures |nodes'| - i' == |nodes| - i
    ensures Scanned(Contents(nodes'), s, x, now, inserted', repeted, i' + 1)
    ensures pnew.id == x.id && pnew.flag == x.flag && pnew.time == x.time && (!inserted' ==> pnew !in nodes')
    ensures Within(nodes', repr)
  {
    hide Scanned, PlaceAt, Slot, Without, Cut, Dup, Contents;
    inserted', nodes', i' := inserted, nodes, i;
    if !inserted && p.time - pnew.time >= 0 {
      ScanPlace(Contents(nodes), s, x, now, repeted, i);
      ghost var c := Contents(nodes);
      LinkBefore(p, pnew, now, nodes, i);
      PlaceIgnoresElapse(c, i, x, old(Value(pnew)), now);
      inserted', nodes', i' := true, Inserted(nodes, i, pnew), i + 1;
    } else {
      ScanPass(Contents(nodes), s, x, now, inserted, repeted, i);
    }
  }

  lemma PlaceIgnoresElapse(c: seq<Timer>, i: nat, x: Timer, y: Timer, now: int)
    requires i <= |c| && Same(x, y) && x.time == y.time
    ensures PlaceAt(c, i, x, now) == PlaceAt(c, i, y, now)
  {
  }

  // ---------- removal by number ----------

  /** `del_a_timer`: removes the first timer with the number, whatever its flag. */
  method DelATimer(head: TimerNode?, value: int, ghost nodes: seq<TimerNode>, ghost repr: set<TimerNode>)
    returns (head': TimerNode?, ghost nodes': seq<TimerNode>)
    requires IsList(head, nodes) && Within(nodes, repr)
    modifies repr
    ensures IsList(head', nodes') && Within(nodes', repr)
    ensures Contents(nodes') == Cut(old(Contents(nodes)), WithId(old(Contents(nodes)), value))
  {
    head', nodes' := head, nodes;
    ghost var s := Contents(nodes);
    var p := head;
    if head == null {
      return null, nodes;
    }
    if p.id == value {
      WithIdIs(s, value, 0);
      head', nodes' := RemoveHead(p, nodes);
      return;
    }
    ghost var i := 0;
    if p.next != null {
      p := p.next;
      i := 1;
    }
    while p.next != null
      invariant p == NodeAt(nodes, i) && i < |nodes| && (i == 0 ==> |nodes| == 1)
      invariant forall q :: 0 <= q < i ==> s[q].id != value
      decreases |nodes| - i
    {
      if p.id == value {
        WithIdIs(s, value, i);
        nodes' := Unlink(p, nodes, i);
        return;
      }
      p := p.next;
      i := i + 1;
    }
    if p.id == value {
      WithIdIs(s, value, i);
      nodes' := Unlink(p, nodes, i);
      return;
    }
    WithIdIs(s, value, |s|);
  }

  method RemoveHead(p: TimerNode, ghost nodes: seq<TimerNode>) returns (head: TimerNode?, ghost rest: seq<TimerNode>)
    requires Linked(nodes) && nodes != [] && p == nodes[0]
    modifies NodeAt(nodes, 1)
    ensures rest == nodes[1..] && IsList(head, rest)
    ensures Contents(rest) == Cut(old(Contents(nodes)), 0)
  {
    rest := nodes[1..];
    if p.next == null {
      return null, rest;
    }
    head := p.next;
    head.pre := null;
  }

  /** Unlinks a node that is not the first. */
  method Unlink(p: TimerNode, ghost nodes: seq<TimerNode>, ghost k: nat) returns (ghost rest: seq<TimerNode>)
    requires Linked(nodes) && 0 < k < |nodes| && p == nodes[k]
    modifies nodes[k - 1], NodeAt(nodes, k + 1)
    ensures rest == nodes[..k] + nodes[k + 1..] && Linked(rest)
    ensures Contents(rest) == Cut(old(Contents(nodes)), k)
  {
    rest := nodes[..k] + nodes[k + 1..];
    ghost var before := Contents(nodes);
    assert p.pre == NodeAt(nodes, k - 1) == nodes[k - 1];
    if p.next != null {
      p.next.pre := p.pre;
      p.pre.next := p.next;
    } else {
      p.pre.next := null;
    }
    forall i | 0 <= i < |rest|
      ensures rest[i].next == NodeAt(rest, i + 1)
      ensures rest[i].pre == NodeAt(rest, i - 1)
      ensures Value(rest[i]) == Cut(before, k)[i]
    {
      var q := if i < k then i else i + 1;
      assert rest[i] == nodes[q];
      assert old(nodes[q].next) == NodeAt(nodes, q + 1) && old(nodes[q].pre) == NodeAt(nodes, q - 1);
    }
    CutDistinct(nodes, k);
  }

  // ---------- the tick ----------

  /** Runs the action of the head timer, which removes the head from the list. */
  method FireHead(head: TimerNode, ghost nodes: seq<TimerNode>, ghost repr: set<TimerNode>)
    returns (head': TimerNode?, timer: Timer, ghost nodes': seq<TimerNode>)
    requires IsList(head, nodes) && Within(nodes, repr)
    modifies repr
    ensures IsList(head', nodes') && Within(nodes', repr)
    ensures timer == old(Contents(nodes))[0] && Contents(nodes') == old(Contents(nodes))[1..]
  {
    timer := Value(head);
    WithIdIs(Contents(nodes), head.id, 0);
    head', nodes' := DelATimer(head, head.id, nodes, repr);
  }

  method RebaseHead(head: TimerNode, now: int, ghost nodes: seq<TimerNode>)
    requires IsList(head, nodes)
    modifies head`elapse
    ensures IsList(head, nodes)
    ensures Contents(nodes) == Rebase(old(Contents(nodes)), now)
  {
    head.elapse := head.time - now;
  }

  /** `sig_func`: the alarm. Reading the head of an emptied list in the second loop is a crash. */
  method SigFunc(head: TimerNode?, now: int, ghost nodes: seq<TimerNode>, ghost repr: set<TimerNode>)
    returns (head': TimerNode?, fired: seq<Timer>, crashed: bool, ghost nodes': seq<TimerNode>)
    requires IsList(head, nodes) && Within(nodes, repr)
    modifies repr
    ensures IsList(head', nodes')
    ensures Ticked(Contents(nodes'), fired, crashed) == Tick(old(Contents(nodes)), now)
  {
    head', fired, crashed, nodes' := head, [], false, nodes;
    if head' != null {
      head', fired, nodes' := FireAllPast(head', now, nodes, repr);
      if head' == null {
        crashed := true;
        return;
      }
      var more: seq<Timer>;
      head', more, nodes' := FireAllNow(head', nodes', repr);
      fired := fired + more;
    }
  }

  method FireAllPast(head: TimerNode, now: int, ghost nodes: seq<TimerNode>, ghost repr: set<TimerNode>)
    returns (head': TimerNode?, fired: seq<Timer>, ghost nodes': seq<TimerNode>)
    requires IsList(head, nodes) && Within(nodes, repr)
    modifies repr
    ensures IsList(head', nodes') && Within(nodes', repr)
    ensures Ticked(Contents(nodes'), fired, head' == null) == FirePast(old(Contents(nodes)), now)
  {
    head', fired, nodes' := head, [], nodes;
    ghost var s := Contents(nodes);
    RebaseHead(head, now, nodes);
    FirePastRebased(s, now);
    assert Prepend([], FirePast(s, now)) == FirePast(s, now);
    while head'.elapse < 0
      invariant head' != null && IsList(head', nodes') && Within(nodes', repr)
      invariant Contents(nodes')[0].elapse == Contents(nodes')[0].time - now
      invariant FirePast(s, now) == Prepend(fired, FirePast(Contents(nodes'), now))
      decreases |nodes'|
    {
      ghost var c := Contents(nodes');
      FirePastStep(c, now);
      var timer;
      head', timer, nodes' := FireHead(head', nodes', repr);
      PrependTwice(fired, [timer], if |c| == 1 then Ticked([], [], true) else FirePast(c[1..], now));
      fired := fired + [timer];
      if head' == null {
        break;
      }
      RebaseHead(head', now, nodes');
      FirePastRebased(c[1..], now);
    }
    if head' != null {
      FirePastStops(Contents(nodes'), now);
    }
  }

  lemma FirePastRebased(s: seq<Timer>, now: int)
    requires s != []
    ensures FirePast(Rebase(s, now), now) == FirePast(s, now)
  {
    assert Rebase(s, now)[1..] == s[1..];
  }

  lemma FirePastStep(c: seq<Timer>, now: int)
    requires c != [] && c[0].elapse == c[0].time - now < 0
    ensures FirePast(c, now) == Prepend([c[0]], if |c| == 1 then Ticked([], [], true) else FirePast(c[1..], now))
  {
  }

  lemma FirePastStops(c: seq<Timer>, now: int)
    requires c != [] && c[0].elapse == c[0].time - now >= 0
    ensures FirePast(c, now) == Ticked(c, [], false)
  {
    assert [c[0]] + c[1..] == c;
  }

  method FireAllNow(head: TimerNode, ghost nodes: seq<TimerNode>, ghost repr: set<TimerNode>)
    returns (head': TimerNode?, fired: seq<Timer>, ghost nodes': seq<TimerNode>)
    requires IsList(head, nodes) && Within(nodes, repr)
    modifies repr
    ensures IsList(head', nodes') && Within(nodes', repr)
    ensures Ticked(Contents(nodes'), fired, false) == FireNow(old(Contents(nodes)))
  {
    head', fired, nodes' := head, [], nodes;
    ghost var s := Contents(nodes);
    assert Prepend([], FireNow(s)) == FireNow(s);
    while head'.elapse == 0
      invariant head' != null && IsList(head', nodes') && Within(nodes', repr)
      invariant FireNow(s) == Prepend(fired, FireNow(Contents(nodes')))
      decreases |nodes'|
    {
      ghost var c := Contents(nodes');
      var timer;
      head', timer, nodes' := FireHead(head', nodes', repr);
      PrependTwice(fired, [timer], FireNow(c[1..]));
      fired := fired + [timer];
      if head' == null {
        break;
      }
    }
  }
}
